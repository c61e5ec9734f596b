/** The skykey file as bytes: a header of magic, version and length, then records. Loading the
    file scans the records up to the length in the header. */
module SkykeyFile {
  import opened Bytes
  import opened Skykey

  const HEADER_LEN := 40

  /** "SkykeyFile" padded to sixteen bytes. */
  const MAGIC: seq<byte> := [83, 107, 121, 107, 101, 121, 70, 105, 108, 101, 0, 0, 0, 0, 0, 0]

  /** "1.4.9", the current format. */
  const VERSION: seq<byte> := [49, 46, 52, 46, 57, 0, 0, 0, 0, 0, 0, 0, 0, 0, 0, 0]

  /** "1.4.4", the old format. */
  const OLD_VERSION: seq<byte> := [49, 46, 52, 46, 52, 0, 0, 0, 0, 0, 0, 0, 0, 0, 0, 0]

  /** File offsets are signed 64-bit numbers. */
  const MAX_FILE_LEN := 0x7FFF_FFFF_FFFF_FFFF

  function Header(version: seq<byte>, fileLen: nat): seq<byte> {
    MAGIC + version + EncodeLE(fileLen, 8)
  }

  /** Seek to an offset and write: bytes are overwritten, the file grows if needed. */
  function WriteAt(file: seq<byte>, offset: nat, data: seq<byte>): (f: seq<byte>)
    ensures |f| >= |file| && |f| >= offset + |data|
  {
    var padded := if |file| < offset then file + Zeros(offset - |file|) else file;
    padded[..offset] + data + (if |padded| <= offset + |data| then [] else padded[offset + |data|..])
  }

  /** loadHeader. */
  function LoadHeader(file: seq<byte>): Result<(seq<byte>, nat)>
    requires |file| >= HEADER_LEN
  {
    if file[..16] != MAGIC then Err(BadMagic)
    else if file[16..32] != VERSION && file[16..32] != OLD_VERSION then Err(UnknownVersion)
    else Ok((file[16..32], DecodeLE(file[32..40])))
  }

  /** The header's length as the signed integer the scan compares with. */
  function AsInt(u: nat): int {
    if u <= MAX_FILE_LEN then u else u - U64
  }

  /** The two maps of the manager. */
  datatype Keys = Keys(idsByName: map<Name, SkykeyID>, keysByID: map<SkykeyID, Skykey>)

  function Put(idOf: IdFunction, m: Keys, sk: Skykey): Keys {
    Keys(m.idsByName[sk.name := ID(idOf, sk)], m.keysByID[ID(idOf, sk) := sk])
  }

  /** The loop of load: the maps after scanning the records from n up to fileLen, and where the
      scan stops. */
  function Scan(idOf: IdFunction, file: seq<byte>, n: nat, fileLen: int, m: Keys): Result<(Keys, nat)>
    requires n <= |file|
    decreases |file| - n
  {
    if n >= fileLen then Ok((m, n))
    else
      match LoadSkykey(file, n)
      case Err(e) => Err(e)
      case Ok((sk, next)) => Scan(idOf, file, next, fileLen, if sk.typ == TYPE_DELETED then m else Put(idOf, m, sk))
  }

  datatype Loaded = Loaded(keys: Keys, fileLen: nat, file: seq<byte>)

  /** load: what the manager holds after starting from these file bytes. A missing header is
      written, and an old version is replaced. */
  function LoadFile(idOf: IdFunction, file: seq<byte>): Result<Loaded> {
    if |file| < HEADER_LEN then
      Ok(Loaded(Keys(map[], map[]), HEADER_LEN, WriteAt(file, 0, Header(VERSION, HEADER_LEN))))
    else
      match LoadHeader(file)
      case Err(e) => Err(e)
      case Ok((version, fileLen)) =>
        match Scan(idOf, file, HEADER_LEN, AsInt(fileLen), Keys(map[], map[]))
        case Err(e) => Err(e)
        case Ok((keys, n)) =>
          if n != AsInt(fileLen) then Err(TrailingRecord)
          else if version != VERSION then Ok(Loaded(keys, fileLen, WriteAt(file, 0, Header(VERSION, fileLen))))
          else Ok(Loaded(keys, fileLen, file))
  }

  // ----- Files made of slots ---------------------------------------------------------------

  ghost function Records(slots: seq<Slot>): seq<byte> {
    if slots == [] then [] else Record(slots[0]) + Records(slots[1..])
  }

  ghost predicate ValidSlots(slots: seq<Slot>) {
    forall i :: 0 <= i < |slots| ==> ValidSlot(slots[i])
  }

  /** The bytes of the file up to fileLen are a header and the records of the slots; anything may
      follow. */
  ghost predicate IsJournal(file: seq<byte>, version: seq<byte>, fileLen: nat, slots: seq<Slot>) {
    && ValidSlots(slots)
    && (version == VERSION || version == OLD_VERSION)
    && fileLen == HEADER_LEN + |Records(slots)| <= |file|
    && fileLen <= MAX_FILE_LEN
    && file[..HEADER_LEN] == Header(version, fileLen)
    && file[HEADER_LEN..fileLen] == Records(slots)
  }

  /** The maps the slots stand for, in order of writing. */
  ghost function Replay(idOf: IdFunction, m: Keys, slots: seq<Slot>): Keys
    decreases |slots|
  {
    if slots == [] then m
    else Replay(idOf, if slots[0].Live? then Put(idOf, m, slots[0].key) else m, slots[1..])
  }

  /** No two live slots share a name or an ID. */
  ghost predicate Unique(idOf: IdFunction, slots: seq<Slot>) {
    forall i, j :: 0 <= i < j < |slots| && slots[i].Live? && slots[j].Live? ==>
      slots[i].key.name != slots[j].key.name && ID(idOf, slots[i].key) != ID(idOf, slots[j].key)
  }

  ghost predicate HasSlot(slots: seq<Slot>, sk: Skykey) {
    Live(sk) in slots
  }

  /** The maps hold exactly the live slots. */
  ghost predicate Represents(idOf: IdFunction, slots: seq<Slot>, m: Keys) {
    && (forall sk :: HasSlot(slots, sk) ==>
          && sk.name in m.idsByName && m.idsByName[sk.name] == ID(idOf, sk)
          && ID(idOf, sk) in m.keysByID && m.keysByID[ID(idOf, sk)] == sk)
    && (forall id :: id in m.keysByID ==> HasSlot(slots, m.keysByID[id]) && ID(idOf, m.keysByID[id]) == id)
    && (forall name :: name in m.idsByName ==>
          m.idsByName[name] in m.keysByID && m.keysByID[m.idsByName[name]].name == name)
  }

  /** Names and IDs are in bijection. */
  ghost predicate Bijective(m: Keys) {
    && (forall name :: name in m.idsByName ==>
          m.idsByName[name] in m.keysByID && m.keysByID[m.idsByName[name]].name == name)
    && (forall id :: id in m.keysByID ==>
          m.keysByID[id].name in m.idsByName && m.idsByName[m.keysByID[id].name] == id)
  }

  lemma RepresentsIsBijective(idOf: IdFunction, slots: seq<Slot>, m: Keys)
    requires Represents(idOf, slots, m)
    ensures Bijective(m)
  {
  }

  /** The slots determine the maps. */
  lemma RepresentedOnce(idOf: IdFunction, slots: seq<Slot>, m: Keys, m': Keys)
    requires Represents(idOf, slots, m) && Represents(idOf, slots, m')
    ensures m == m'
  {
    forall id | id in m.keysByID ensures id in m'.keysByID && m'.keysByID[id] == m.keysByID[id] {
      assert HasSlot(slots, m.keysByID[id]);
    }
    forall id | id in m'.keysByID ensures id in m.keysByID {
      assert HasSlot(slots, m'.keysByID[id]);
    }
    assert m.keysByID == m'.keysByID;
    forall name | name in m.idsByName ensures name in m'.idsByName && m'.idsByName[name] == m.idsByName[name] {
      assert HasSlot(slots, m.keysByID[m.idsByName[name]]);
    }
    forall name | name in m'.idsByName ensures name in m.idsByName {
      assert HasSlot(slots, m'.keysByID[m'.idsByName[name]]);
    }
    assert m.idsByName == m'.idsByName;
  }

  /** The manager holds a key of type t whose first 32 bytes of entropy are e. */
  ghost predicate HoldsSecret(m: Keys, t: byte, e: seq<byte>) {
    exists id :: id in m.keysByID && HasSecret(m.keysByID[id], t, e)
  }

  /** The ID of a secret is known if and only if a key with this secret is. */
  lemma KnownIDIff(idOf: IdFunction, slots: seq<Slot>, m: Keys, t: byte, e: seq<byte>)
    requires ValidSlots(slots) && Represents(idOf, slots, m)
    ensures HoldsSecret(m, t, e) ==> idOf(t, e) in m.keysByID
    ensures Injective(idOf) ==> (HoldsSecret(m, t, e) <==> idOf(t, e) in m.keysByID)
  {
    hide ID, Injective, IsValid, HasSecret;
    forall id | id in m.keysByID
      ensures HasSecret(m.keysByID[id], t, e) ==> id == idOf(t, e)
      ensures Injective(idOf) && id == idOf(t, e) ==> HasSecret(m.keysByID[id], t, e)
    {
      var sk := m.keysByID[id];
      assert HasSlot(slots, sk);
      var i :| 0 <= i < |slots| && slots[i] == Live(sk);
      assert ValidSlot(slots[i]);
      IDIsSecret(idOf, sk, t, e);
    }
  }

  ghost predicate Fresh(m: Keys, id: SkykeyID, name: Name) {
    id !in m.keysByID && name !in m.idsByName
  }

  /** A key with a new name and a new ID adds one live slot. */
  lemma RepresentsAdd(idOf: IdFunction, slots: seq<Slot>, m: Keys, sk: Skykey)
    requires Represents(idOf, slots, m)
    requires Fresh(m, ID(idOf, sk), sk.name)
    ensures Represents(idOf, slots + [Live(sk)], Put(idOf, m, sk))
  {
    hide ID;
    var slots', m' := slots + [Live(sk)], Put(idOf, m, sk);
    forall k ensures HasSlot(slots', k) <==> HasSlot(slots, k) || k == sk {
      assert slots'[|slots|] == Live(sk);
    }
    hide HasSlot;
    forall id | id in m'.keysByID ensures HasSlot(slots', m'.keysByID[id]) && ID(idOf, m'.keysByID[id]) == id {
      assert id != ID(idOf, sk) ==> HasSlot(slots, m.keysByID[id]);
    }
  }

  lemma UniqueAdd(idOf: IdFunction, slots: seq<Slot>, m: Keys, sk: Skykey)
    requires Represents(idOf, slots, m) && Unique(idOf, slots)
    requires Fresh(m, ID(idOf, sk), sk.name)
    ensures Unique(idOf, slots + [Live(sk)])
  {
    hide ID;
    forall i | 0 <= i < |slots| && slots[i].Live?
      ensures slots[i].key.name != sk.name && ID(idOf, slots[i].key) != ID(idOf, sk)
    {
      assert HasSlot(slots, slots[i].key);
    }
  }

  /** Deleting the slot of a key removes that key and no other. */
  lemma DeletedSlots(idOf: IdFunction, slots: seq<Slot>, i: nat, size: nat, k: Skykey)
    requires Unique(idOf, slots) && i < |slots| && slots[i].Live?
    ensures HasSlot(slots[i := Dead(size)], k) <==> HasSlot(slots, k) && k != slots[i].key
    ensures HasSlot(slots[i := Dead(size)], k) ==>
              k.name != slots[i].key.name && ID(idOf, k) != ID(idOf, slots[i].key)
    ensures Unique(idOf, slots[i := Dead(size)])
  {
    hide ID;
    var slots' := slots[i := Dead(size)];
    if HasSlot(slots', k) {
      var j :| 0 <= j < |slots'| && slots'[j] == Live(k);
      assert slots[j] == Live(k) && j != i;
    }
    if HasSlot(slots, k) && k != slots[i].key {
      var j :| 0 <= j < |slots| && slots[j] == Live(k);
      assert slots'[j] == Live(k);
    }
  }

  /** Deleting the slot of a key removes its name and its ID, and nothing else. */
  lemma RepresentsDelete(idOf: IdFunction, slots: seq<Slot>, m: Keys, i: nat, size: nat)
    requires Represents(idOf, slots, m) && Unique(idOf, slots)
    requires i < |slots| && slots[i].Live?
    ensures var sk := slots[i].key;
            Represents(idOf, slots[i := Dead(size)], Keys(m.idsByName - {sk.name}, m.keysByID - {ID(idOf, sk)}))
  {
    hide ID, Unique;
    var sk, slots' := slots[i].key, slots[i := Dead(size)];
    var id' := ID(idOf, sk);
    var names, keys := m.idsByName - {sk.name}, m.keysByID - {id'};
    assert HasSlot(slots, sk);
    hide HasSlot;
    forall k | HasSlot(slots', k)
      ensures k.name in names && names[k.name] == ID(idOf, k) && ID(idOf, k) in keys && keys[ID(idOf, k)] == k
    {
      DeletedSlots(idOf, slots, i, size, k);
    }
    forall id | id in keys ensures HasSlot(slots', keys[id]) && ID(idOf, keys[id]) == id {
      DeletedSlots(idOf, slots, i, size, m.keysByID[id]);
    }
    forall name | name in names ensures names[name] in keys && keys[names[name]].name == name {
      assert m.keysByID[m.idsByName[name]].name == name != sk.name;
    }
  }

  /** Replaying unique slots gives the maps they represent. */
  lemma {:induction false} ReplayRepresents(idOf: IdFunction, done: seq<Slot>, m: Keys, rest: seq<Slot>)
    requires Represents(idOf, done, m) && Unique(idOf, done + rest)
    ensures Represents(idOf, done + rest, Replay(idOf, m, rest))
    decreases |rest|
  {
    if rest == [] {
      assert done + rest == done;
    } else {
      var next := done + [rest[0]];
      assert next + rest[1..] == done + rest;
      assert Unique(idOf, done) by {
        forall i, j | 0 <= i < j < |done| && done[i].Live? && done[j].Live?
          ensures done[i].key.name != done[j].key.name && ID(idOf, done[i].key) != ID(idOf, done[j].key)
        {
          assert (done + rest)[i] == done[i] && (done + rest)[j] == done[j];
        }
      }
      if rest[0].Live? {
        FreshAfter(idOf, done, m, rest);
        RepresentsAdd(idOf, done, m, rest[0].key);
        UniqueAdd(idOf, done, m, rest[0].key);
        ReplayRepresents(idOf, next, Put(idOf, m, rest[0].key), rest[1..]);
      } else {
        forall sk ensures HasSlot(next, sk) <==> HasSlot(done, sk) {
        }
        ReplayRepresents(idOf, next, m, rest[1..]);
      }
    }
  }

  lemma FreshAfter(idOf: IdFunction, done: seq<Slot>, m: Keys, rest: seq<Slot>)
    requires Represents(idOf, done, m) && Unique(idOf, done + rest) && rest != [] && rest[0].Live?
    ensures Fresh(m, ID(idOf, rest[0].key), rest[0].key.name)
  {
    var all, sk := done + rest, rest[0].key;
    assert all[|done|] == rest[0];
    forall k | HasSlot(done, k) ensures k.name != sk.name && ID(idOf, k) != ID(idOf, sk) {
      var j :| 0 <= j < |done| && done[j] == Live(k);
      assert all[j] == Live(k);
    }
    forall id | id in m.keysByID ensures id != ID(idOf, sk) {
      assert HasSlot(done, m.keysByID[id]);
    }
    forall name | name in m.idsByName ensures name != sk.name {
      assert HasSlot(done, m.keysByID[m.idsByName[name]]);
    }
  }

  // ----- Loading a journal -----------------------------------------------------------------

  lemma FirstRecord(file: seq<byte>, n: nat, fileLen: nat, slots: seq<Slot>)
    requires slots != [] && n <= fileLen <= |file| && file[n..fileLen] == Records(slots)
    ensures var r := Record(slots[0]);
            && n + |r| <= fileLen && r <= file[n..]
            && file[n + |r|..fileLen] == Records(slots[1..])
  {
    hide Record;
    var r := Record(slots[0]);
    assert file[n..fileLen] == r + Records(slots[1..]);
    assert file[n..][..|r|] == file[n..fileLen][..|r|] == r;
    assert file[n + |r|..fileLen] == file[n..fileLen][|r|..];
  }

  /** Scanning the records of the slots replays them and stops exactly at their end. */
  lemma {:induction false} ScanReplays(idOf: IdFunction, file: seq<byte>, n: nat, fileLen: nat, m: Keys,
                                       slots: seq<Slot>)
    requires ValidSlots(slots) && n <= fileLen <= |file|
    requires file[n..fileLen] == Records(slots)
    ensures Scan(idOf, file, n, fileLen, m) == Ok((Replay(idOf, m, slots), fileLen))
    decreases |slots|
  {
    hide Record, LoadSkykey, Put;
    if slots != [] {
      FirstRecord(file, n, fileLen, slots);
      RecordParses(slots[0], file, n);
      ScanReplays(idOf, file, n + |Record(slots[0])|, fileLen,
                  if slots[0].Live? then Put(idOf, m, slots[0].key) else m, slots[1..]);
    }
  }

  lemma HeaderParses(file: seq<byte>, version: seq<byte>, fileLen: nat)
    requires |file| >= HEADER_LEN && file[..HEADER_LEN] == Header(version, fileLen) && fileLen < U64
    requires version == VERSION || version == OLD_VERSION
    ensures LoadHeader(file) == Ok((version, fileLen))
  {
    hide EncodeLE, DecodeLE;
    U64RoundTrip(fileLen);
    var h := Header(version, fileLen);
    assert file[..16] == h[..16] == MAGIC;
    assert file[16..32] == h[16..32] == version;
    assert file[32..40] == h[32..40] == EncodeLE(fileLen, 8);
  }

  /** Refinement: loading the file of a journal rebuilds exactly the maps its slots represent. */
  lemma JournalLoads(idOf: IdFunction, file: seq<byte>, version: seq<byte>, fileLen: nat, slots: seq<Slot>, m: Keys)
    requires IsJournal(file, version, fileLen, slots) && Unique(idOf, slots) && Represents(idOf, slots, m)
    ensures LoadFile(idOf, file)
            == Ok(Loaded(m, fileLen, if version == VERSION then file else WriteAt(file, 0, Header(VERSION, fileLen))))
  {
    var none := Keys(map[], map[]);
    HeaderParses(file, version, fileLen);
    ScanReplays(idOf, file, HEADER_LEN, fileLen, none, slots);
    assert [] + slots == slots;
    ReplayRepresents(idOf, [], none, slots);
    RepresentedOnce(idOf, slots, m, Replay(idOf, none, slots));
  }
}
