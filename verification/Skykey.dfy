/** Skykeys and their record format: one type byte, the entropy, and the name with an eight-byte
    length prefix. A deleted key keeps its place as a tombstone of the same size. */
module Skykey {
  import opened Bytes

  const KEY_SIZE := 32
  const ENTROPY_LEN := 56
  const MAX_KEY_NAME_LEN := 128
  const MAX_ENTROPY_LEN := 256

  const TYPE_INVALID: byte := 0x00
  const TYPE_PUBLIC_ID: byte := 0x01
  const TYPE_PRIVATE_ID: byte := 0x02
  const TYPE_DELETED: byte := 0xFF

  type Name = seq<byte>
  type SkykeyID = seq<byte>

  datatype Skykey = Skykey(name: Name, typ: byte, entropy: seq<byte>)

  datatype Error =
    | NameTooLong | UnsupportedType | CannotMarshalInvalid | InvalidEntropyLength | UnexpectedEnd
    | IDAlreadyExists | NameAlreadyExists | NoKeyWithThatID | NoKeyWithThatName
    | BadMagic | UnknownVersion | TrailingRecord

  datatype Result<+T> = Ok(value: T) | Err(error: Error)

  /** The hash that identifies a key, applied to its type and key bytes. */
  type IdFunction = (byte, seq<byte>) -> SkykeyID

  predicate SupportedType(t: byte) {
    t == TYPE_PUBLIC_ID || t == TYPE_PRIVATE_ID
  }

  /** Skykey.IsValid: the first problem, if there is one. */
  function Problem(sk: Skykey): Option<Error> {
    if |sk.name| > MAX_KEY_NAME_LEN then Some(NameTooLong)
    else if !SupportedType(sk.typ) then Some(UnsupportedType)
    else if |sk.entropy| != ENTROPY_LEN then Some(InvalidEntropyLength)
    else None
  }

  predicate IsValid(sk: Skykey) {
    Problem(sk).None?
  }

  /** Skykey.ID: the nonce part of the entropy is ignored for the supported types. */
  function ID(idOf: IdFunction, sk: Skykey): SkykeyID {
    if SupportedType(sk.typ) && |sk.entropy| >= KEY_SIZE then idOf(sk.typ, sk.entropy[..KEY_SIZE])
    else idOf(sk.typ, sk.entropy)
  }

  /** Different inputs have different IDs. */
  ghost predicate Injective(idOf: IdFunction) {
    forall t, e, t', e' :: idOf(t, e) == idOf(t', e') ==> t == t' && e == e'
  }

  /** A key of type t whose first 32 bytes of entropy, those without the nonce, are e. */
  predicate HasSecret(sk: Skykey, t: byte, e: seq<byte>) {
    sk.typ == t && 32 <= |sk.entropy| && sk.entropy[..32] == e
  }

  /** A key and the keys derived from it share their ID; no other key has it. */
  lemma IDIsSecret(idOf: IdFunction, sk: Skykey, t: byte, e: seq<byte>)
    requires IsValid(sk)
    ensures HasSecret(sk, t, e) ==> ID(idOf, sk) == idOf(t, e)
    ensures Injective(idOf) && ID(idOf, sk) == idOf(t, e) ==> HasSecret(sk, t, e)
  {
  }

  // ----- Printing and parsing one record ---------------------------------------------------

  function MarshalDataOnly(sk: Skykey): Result<seq<byte>> {
    if sk.typ == TYPE_INVALID then Err(CannotMarshalInvalid)
    else if !SupportedType(sk.typ) then Err(UnsupportedType)
    else if |sk.entropy| != ENTROPY_LEN then Err(InvalidEntropyLength)
    else Ok([sk.typ] + sk.entropy)
  }

  function MarshalSia(sk: Skykey): Result<seq<byte>> {
    match MarshalDataOnly(sk)
    case Err(e) => Err(e)
    case Ok(data) => Ok(data + EncodeLE(|sk.name|, 8) + sk.name)
  }

  /** A byte string with an eight-byte length prefix, and how many bytes it takes. */
  function ReadPrefixed(b: seq<byte>): (r: Option<(seq<byte>, nat)>)
    ensures r.Some? ==> r.value.1 == 8 + |r.value.0| <= |b|
  {
    if |b| < 8 then None
    else
      var n := DecodeLE(b[..8]);
      if n > |b| - 8 then None else Some((b[8..8 + n], 8 + n))
  }

  /** The key data at the front of b, and how many bytes it takes. */
  function UnmarshalDataOnly(b: seq<byte>): (r: Result<(Skykey, nat)>)
    ensures r.Ok? ==> 0 < r.value.1 <= |b|
  {
    if b == [] || b[0] == TYPE_INVALID then Err(CannotMarshalInvalid)
    else if SupportedType(b[0]) then
      if |b| < 1 + ENTROPY_LEN then Err(UnexpectedEnd)
      else Ok((Skykey([], b[0], b[1..1 + ENTROPY_LEN]), 1 + ENTROPY_LEN))
    else if b[0] == TYPE_DELETED then
      if |b| < 9 then Err(UnexpectedEnd)
      else
        var n := DecodeLE(b[1..9]);
        if n > MAX_ENTROPY_LEN then Err(InvalidEntropyLength)
        else if |b| < 9 + n then Err(UnexpectedEnd)
        else Ok((Skykey([], b[0], b[9..9 + n]), 9 + n))
    else Err(UnsupportedType)
  }

  function UnmarshalSia(b: seq<byte>): (r: Result<(Skykey, nat)>)
    ensures r.Ok? ==> 0 < r.value.1 <= |b|
    ensures r.Ok? ==> IsValid(r.value.0) || r.value.0.typ == TYPE_DELETED
  {
    match UnmarshalDataOnly(b)
    case Err(e) => Err(e)
    case Ok((sk, n)) =>
      if sk.typ == TYPE_DELETED then Ok((sk, n))
      else
        match ReadPrefixed(b[n..])
        case None => Err(UnexpectedEnd)
        case Some((name, m)) =>
          var named := sk.(name := name);
          match Problem(named)
          case Some(e) => Err(e)
          case None => Ok((named, n + m))
  }

  /** The record format of version 1.4.4: name, eight bytes of cipher type, entropy. It is only
      tried on bytes the current format rejects. */
  function UnmarshalOldFormat(b: seq<byte>): (r: Result<(Skykey, nat)>)
    ensures r.Ok? ==> 0 < r.value.1 <= |b| && IsValid(r.value.0)
  {
    match ReadPrefixed(b)
    case None => Err(UnexpectedEnd)
    case Some((name, n)) =>
      if |b| < n + 8 then Err(UnexpectedEnd)
      else
        match ReadPrefixed(b[n + 8..])
        case None => Err(UnexpectedEnd)
        case Some((entropy, m)) =>
          if |name| > MAX_KEY_NAME_LEN then Err(NameTooLong)
          else if |entropy| != ENTROPY_LEN then Err(InvalidEntropyLength)
          else Ok((Skykey(name, TYPE_PUBLIC_ID, entropy), n + 8 + m))
  }

  /** loadSkykey: the record at offset n of the file and the offset after it. */
  function LoadSkykey(file: seq<byte>, n: nat): (r: Result<(Skykey, nat)>)
    requires n <= |file|
    ensures r.Ok? ==> n < r.value.1 <= |file|
  {
    match UnmarshalSia(file[n..])
    case Ok((sk, m)) => Ok((sk, n + m))
    case Err(_) =>
      match UnmarshalOldFormat(file[n..])
      case Ok((sk, m)) => Ok((sk, n + m))
      case Err(e) => Err(e)
  }

  /** marshalDeletedSkykey. */
  function MarshalDeleted(size: nat): seq<byte> {
    [TYPE_DELETED] + EncodeLE(size, 8) + Zeros(size)
  }

  // ----- Records as slots ------------------------------------------------------------------

  /** What a record of the file stands for: a key, or the room a deleted key left. */
  datatype Slot = Live(key: Skykey) | Dead(size: nat)

  ghost predicate ValidSlot(slot: Slot) {
    match slot
    case Live(key) => IsValid(key)
    case Dead(size) => size <= MAX_ENTROPY_LEN
  }

  function Record(slot: Slot): seq<byte> {
    match slot
    case Live(key) => if MarshalSia(key).Ok? then MarshalSia(key).value else []
    case Dead(size) => MarshalDeleted(size)
  }

  function SlotKey(slot: Slot): Skykey {
    match slot
    case Live(key) => key
    case Dead(size) => Skykey([], TYPE_DELETED, Zeros(size))
  }

  lemma ReadPrefixedWritten(s: seq<byte>, tail: seq<byte>)
    requires |s| < U64
    ensures ReadPrefixed(EncodeLE(|s|, 8) + s + tail) == Some((s, 8 + |s|))
  {
    hide EncodeLE, DecodeLE;
    PrefixParts(EncodeLE(|s|, 8), s, tail);
    U64RoundTrip(|s|);
  }

  lemma PrefixParts(prefix: seq<byte>, s: seq<byte>, tail: seq<byte>)
    ensures var b := prefix + s + tail;
            b[..|prefix|] == prefix && b[|prefix|..|prefix| + |s|] == s
  {
  }

  lemma LiveRecordParses(key: Skykey, tail: seq<byte>)
    requires IsValid(key)
    ensures |Record(Live(key))| == 65 + |key.name|
    ensures UnmarshalSia(Record(Live(key)) + tail) == Ok((key, |Record(Live(key))|))
  {
    var b := Record(Live(key)) + tail;
    var n := 1 + ENTROPY_LEN;
    assert b[0] == key.typ && b[1..n] == key.entropy;
    assert b[n..] == EncodeLE(|key.name|, 8) + key.name + tail;
    ReadPrefixedWritten(key.name, tail);
    assert Skykey([], key.typ, key.entropy).(name := key.name) == key;
  }

  lemma DeadRecordParses(size: nat, tail: seq<byte>)
    requires size <= MAX_ENTROPY_LEN
    ensures |Record(Dead(size))| == 9 + size
    ensures UnmarshalSia(Record(Dead(size)) + tail) == Ok((SlotKey(Dead(size)), 9 + size))
  {
    var b := Record(Dead(size)) + tail;
    U64RoundTrip(size);
    assert b[0] == TYPE_DELETED && b[1..9] == EncodeLE(size, 8);
    assert b[9..9 + size] == Zeros(size);
  }

  /** Printing then parsing: every record is read back, whatever follows it in the file, and the
      reader stops exactly at its end. */
  lemma RecordParses(slot: Slot, file: seq<byte>, n: nat)
    requires ValidSlot(slot) && n <= |file| && Record(slot) <= file[n..]
    ensures LoadSkykey(file, n) == Ok((SlotKey(slot), n + |Record(slot)|))
    ensures |Record(slot)| > 0
  {
    hide Record, UnmarshalSia, UnmarshalOldFormat;
    var tail := file[n..][|Record(slot)|..];
    assert file[n..] == Record(slot) + tail;
    match slot
    case Live(key) => LiveRecordParses(key, tail);
    case Dead(size) => DeadRecordParses(size, tail);
  }

  /** Parsing then printing: what is parsed as a key is the record of a valid key, and what is parsed as a
      deleted key is a length of at most 256 and that many bytes. */
  lemma ParsedIsRecord(b: seq<byte>)
    requires UnmarshalSia(b).Ok?
    ensures var (sk, n) := UnmarshalSia(b).value;
            && 0 < n <= |b|
            && (b[0] != 255 ==> IsValid(sk) && b[..n] == Record(Live(sk)))
            && (b[0] == 255 ==>
                  n == 9 + |sk.entropy| <= 265 && sk.name == [] && sk.typ == 255
                  && b[..n] == [255] + EncodeLE(|sk.entropy|, 8) + sk.entropy)
  {
    hide EncodeLE, DecodeLE, Zeros;
    var (sk, n) := UnmarshalSia(b).value;
    if b[0] == 255 {
      EncodeDecodeLE(b[1..9]);
      assert b[..n] == [255] + b[1..9] + b[9..n];
    } else {
      var rest := b[57..];
      EncodeDecodeLE(rest[..8]);
      assert sk.entropy == b[1..57] && sk.typ == b[0];
      assert rest[..8] == b[57..65] && sk.name == rest[8..8 + |sk.name|] == b[65..65 + |sk.name|];
      assert b[..n] == ([b[0]] + b[1..57]) + b[57..65] + b[65..n];
    }
  }

  /** The record of a key in the format of version 1.4.4. */
  function OldRecord(key: Skykey, cipher: seq<byte>): seq<byte> {
    EncodeLE(|key.name|, 8) + key.name + cipher + EncodeLE(|key.entropy|, 8) + key.entropy
  }

  /** The old format alone reads its records back, with the type of a public ID. */
  lemma OldRecordParses(key: Skykey, cipher: seq<byte>, tail: seq<byte>)
    requires IsValid(key) && key.typ == 1 && |cipher| == 8
    ensures UnmarshalOldFormat(OldRecord(key, cipher) + tail) == Ok((key, |OldRecord(key, cipher)|))
    ensures |OldRecord(key, cipher)| == 80 + |key.name| && OldRecord(key, cipher)[0] as nat == |key.name|
  {
    hide ReadPrefixed, EncodeLE;
    var b := OldRecord(key, cipher) + tail;
    var rest := cipher + EncodeLE(|key.entropy|, 8) + key.entropy + tail;
    Behind(EncodeLE(|key.name|, 8) + key.name, cipher, EncodeLE(|key.entropy|, 8) + key.entropy, tail, b, rest);
    ReadPrefixedWritten(key.name, rest);
    ReadPrefixedWritten(key.entropy, tail);
    FirstByte(|key.name|);
    assert Skykey(key.name, TYPE_PUBLIC_ID, key.entropy) == key;
  }

  lemma Behind(name: seq<byte>, cipher: seq<byte>, entropy: seq<byte>, tail: seq<byte>, b: seq<byte>, rest: seq<byte>)
    requires b == name + cipher + entropy + tail && rest == cipher + entropy + tail
    ensures b == name + rest && b[|name| + |cipher|..] == entropy + tail
  {
  }

  lemma FirstByte(n: nat)
    requires n < 256
    ensures EncodeLE(n, 8)[0] as nat == n
  {
  }

  /** A file of the old version loads its records, unless the new format, which is tried first, happens to
      accept the bytes too; this takes a name of one or two bytes, whose length reads as a key type. */
  lemma OldRecordLoadsIff(key: Skykey, cipher: seq<byte>, file: seq<byte>, n: nat)
    requires IsValid(key) && key.typ == 1 && |cipher| == 8
    requires n <= |file| && OldRecord(key, cipher) <= file[n..]
    ensures LoadSkykey(file, n) == Ok((key, n + |OldRecord(key, cipher)|)) <==> UnmarshalSia(file[n..]).Err?
    ensures |key.name| != 1 && |key.name| != 2 ==> UnmarshalSia(file[n..]).Err?
  {
    hide OldRecord, UnmarshalOldFormat, UnmarshalSia, Record;
    var r := OldRecord(key, cipher);
    var tail := file[n..][|r|..];
    assert file[n..] == r + tail;
    OldRecordParses(key, cipher, tail);
    if UnmarshalSia(file[n..]).Ok? {
      ParsedIsRecord(file[n..]);
      TypeByte(file[n..]);
      LiveRecordParses(UnmarshalSia(file[n..]).value.0, []);
    }
  }

  /** An old record with a name of one byte that loads as another key. */
  lemma SomeOldRecordIsMisread()
    ensures var key := Skykey([97], 1, Zeros(56));
            var file := OldRecord(key, Zeros(8));
            IsValid(key) && LoadSkykey(file, 0).Ok? && LoadSkykey(file, 0) != Ok((key, |file|))
  {
    hide UnmarshalOldFormat, UnmarshalSia, LoadSkykey, EncodeLE, Zeros;
    var key := Skykey([97], 1, Zeros(56));
    var file := OldRecord(key, Zeros(8));
    OldRecordParses(key, Zeros(8), []);
    BehindZeros(EncodeLE(|key.name|, 8) + key.name + Zeros(8) + EncodeLE(|key.entropy|, 8));
    ReadsAsNew(file);
    hide OldRecord;
    OldRecordLoadsIff(key, Zeros(8), file, 0);
    LoadedAsNew(file);
  }

  lemma BehindZeros(prefix: seq<byte>)
    requires |prefix| == 25
    ensures (prefix + Zeros(56))[57..] == Zeros(24)
  {
  }

  lemma LoadedAsNew(b: seq<byte>)
    requires UnmarshalSia(b).Ok?
    ensures LoadSkykey(b, 0).Ok?
  {
    assert b[0..] == b;
  }

  lemma ReadsAsNew(b: seq<byte>)
    requires |b| >= 65 && b[0] == 1 && b[57..] == Zeros(|b| - 57)
    ensures UnmarshalSia(b).Ok?
  {
    var rest := b[57..];
    assert rest[..8] == Zeros(8);
    ZeroNumber(8);
    assert ReadPrefixed(rest) == Some(([], 8));
  }

  lemma {:induction false} ZeroNumber(n: nat)
    ensures DecodeLE(Zeros(n)) == 0
  {
    if n > 0 {
      ZeroNumber(n - 1);
      assert Zeros(n)[1..] == Zeros(n - 1);
    }
  }

  lemma TypeByte(b: seq<byte>)
    requires UnmarshalSia(b).Ok?
    ensures b != [] && (b[0] == 1 || b[0] == 2 || b[0] == 255)
  {
  }

  /** The tombstone of a live record fills exactly its span and stays under the entropy cap. */
  lemma TombstoneFits(key: Skykey)
    requires IsValid(key)
    ensures var size := |Record(Live(key))| - 9;
            size == ENTROPY_LEN + |key.name| <= MAX_ENTROPY_LEN && |Record(Dead(size))| == |Record(Live(key))|
  {
    LiveRecordParses(key, []);
  }
}
