/** A crash while the new length is written into the header: what the file stands for when only the
    first bytes of the little-endian number are on disk. */
module SkykeyTornLength {
  import opened Arith
  import opened Bytes
  import opened Skykey
  import opened SkykeyFile
  import opened SkykeyJournal

  /** The number whose first t digits in base 256 are those of `new'` and whose other digits are those of
      `old'`. */
  function Mixed(old': nat, new': nat, t: nat): nat {
    if t == 0 then old' else new' % 256 + 256 * Mixed(old' / 256, new' / 256, t - 1)
  }

  lemma {:induction false} MixedEncoding(a: nat, b: nat, t: nat, width: nat)
    requires t <= width
    ensures EncodeLE(b, width)[..t] + EncodeLE(a, width)[t..] == EncodeLE(Mixed(a, b, t), width)
  {
    if t == 0 {
      assert EncodeLE(b, width)[..0] == [];
    } else {
      MixedEncoding(a / 256, b / 256, t - 1, width - 1);
      LastDigit(b % 256, Mixed(a / 256, b / 256, t - 1), 0);
      FirstDigits(b % 256, EncodeLE(b / 256, width - 1), a % 256, EncodeLE(a / 256, width - 1), t);
    }
  }

  lemma FirstDigits(x: byte, s: seq<byte>, y: byte, r: seq<byte>, t: nat)
    requires 0 < t <= |s| + 1 && |r| == |s|
    ensures ([x] + s)[..t] + ([y] + r)[t..] == [x] + (s[..t - 1] + r[t - 1..])
  {
  }

  lemma {:induction false} MixedClosed(a: nat, b: nat, t: nat)
    ensures Mixed(a, b, t) == b % Pow(256, t) + Pow(256, t) * (a / Pow(256, t))
  {
    hide Pow;
    PowFirst(256, t);
    if t > 0 {
      MixedClosed(a / 256, b / 256, t - 1);
      var q := Pow(256, t - 1);
      NestedDigits(a, b, q);
    }
  }

  lemma NestedDigits(a: nat, b: nat, q: nat)
    requires q > 0
    ensures b % 256 + 256 * (b / 256 % q + q * (a / 256 / q)) == b % (256 * q) + 256 * q * (a / (256 * q))
  {
    DivNested(a, 256, q);
    DivNested(b, 256, q);
    DivBounds(b, 256);
    DivBounds(b / 256, q);
    DivBounds(b, 256 * q);
    var d := b / (256 * q);
    assert 256 * (d * q) == d * (256 * q);
    assert 256 * (q * (a / 256 / q)) == 256 * q * (a / (256 * q));
  }

  /** Mixing the digits of two numbers less than 256 apart gives the larger one if they agree from digit t
      on; if not, a number below both. */
  lemma MixedNear(a: nat, b: nat, t: nat)
    requires a < b < a + 256 && t > 0
    ensures a / Pow(256, t) == b / Pow(256, t) ==> Mixed(a, b, t) == b
    ensures a / Pow(256, t) != b / Pow(256, t) ==> Mixed(a, b, t) < a
  {
    MixedClosed(a, b, t);
    PowFirst(256, t);
    MulMono(1, Pow(256, t - 1), 256);
    hide Pow, Mixed;
    NearDigits(a, b, Pow(256, t));
  }

  lemma NearDigits(a: nat, b: nat, q: nat)
    requires a < b < a + 256 <= a + q
    ensures a / q == b / q ==> b % q + q * (a / q) == b
    ensures a / q != b / q ==> b % q + q * (a / q) < a
  {
    DivBounds(a, q);
    DivBounds(b, q);
    DivMono(a, b, q);
    NearProducts(a, b, q, a / q, b / q, b % q);
  }

  lemma NearProducts(a: nat, b: nat, q: nat, x: nat, y: nat, r: nat)
    requires a < b < a + 256 <= a + q && x <= y && x * q <= a && y * q + r == b
    ensures x == y ==> r + q * x == b
    ensures x != y ==> r + q * x < a
  {
    MulNext(x, q);
    if x != y {
      MulMono(x + 1, y, q);
    }
  }

  /** Rewriting the first 32 + t bytes of the header mixes the two lengths. */
  lemma MixedHeader(fileLen: nat, written: nat, t: nat)
    requires t <= 8
    ensures |Header(VERSION, written)| == |Header(VERSION, fileLen)| == HEADER_LEN
    ensures Header(VERSION, written)[..32 + t] + Header(VERSION, fileLen)[32 + t..]
            == Header(VERSION, Mixed(fileLen, written, t))
  {
    hide EncodeLE, Mixed;
    MixedEncoding(fileLen, written, t, 8);
    var front := MAGIC + VERSION;
    BehindFront(front, EncodeLE(written, 8), EncodeLE(fileLen, 8), t);
    PlusAssoc(front, EncodeLE(written, 8)[..t], EncodeLE(fileLen, 8)[t..]);
  }

  lemma BehindFront(front: seq<byte>, s: seq<byte>, r: seq<byte>, t: nat)
    requires t <= |s| == |r|
    ensures (front + s)[..|front| + t] == front + s[..t] && (front + r)[|front| + t..] == r[t..]
  {
  }

  /** A file whose header starts with the bytes h is a file with another header. */
  lemma RewriteStart(file: seq<byte>, k: nat, h: seq<byte>)
    requires k <= |h| <= |file|
    ensures WriteAt(file, 0, h[..k]) == h[..k] + file[k..]
    ensures WriteAt(file, 0, h) == h + file[|h|..]
    ensures h[..k] + file[k..] == (h[..k] + file[..|h|][k..]) + file[|h|..]
  {
  }

  /** With the record on disk and the header written up to t bytes of the length, the file has the header
      of the mixed length. */
  lemma TornLengthFile(file: seq<byte>, fileLen: nat, slots: seq<Slot>, written: nat, t: nat)
    requires IsJournal(file, VERSION, fileLen, slots) && t <= 8
    ensures |Header(VERSION, written)| == |Header(VERSION, Mixed(fileLen, written, t))| == HEADER_LEN
    ensures WriteAt(file, 0, Header(VERSION, written)[..32 + t])
            == WriteAt(file, 0, Header(VERSION, Mixed(fileLen, written, t)))
  {
    MixedHeader(fileLen, written, t);
    HeaderLength(VERSION, Mixed(fileLen, written, t));
    hide Header, Mixed, Records, ValidSlots, WriteAt;
    var h := Header(VERSION, written);
    RewriteStart(file, 32 + t, h);
    RewriteStart(file, 0, Header(VERSION, Mixed(fileLen, written, t)));
  }

  // ----- Loading fewer records -------------------------------------------------------------

  /** How many records a scan of `length` bytes reads: the last one may reach past the end. */
  ghost function CutAt(slots: seq<Slot>, length: int): (k: nat)
    ensures k <= |slots|
    decreases |slots|
  {
    if length <= 0 || slots == [] then 0 else 1 + CutAt(slots[1..], length - |Record(slots[0])|)
  }

  /** Scanning records up to a length reads the records before the cut. */
  lemma {:induction false} ScanCut(idOf: IdFunction, file: seq<byte>, n: nat, length: int, m: Keys, slots: seq<Slot>)
    requires ValidSlots(slots) && n <= n + |Records(slots)| <= |file| && length <= n + |Records(slots)|
    requires file[n..n + |Records(slots)|] == Records(slots)
    ensures var k := CutAt(slots, length - n);
            Scan(idOf, file, n, length, m) == Ok((Replay(idOf, m, slots[..k]), n + |Records(slots[..k])|))
    decreases |slots|
  {
    hide Records, Replay, Record, LoadSkykey, ValidSlot, Put;
    NothingRead(idOf, m, slots);
    if n < length {
      NotEmpty(slots);
      FirstRecord(file, n, n + |Records(slots)|, slots);
      RecordParses(slots[0], file, n);
      var k := CutAt(slots[1..], length - n - |Record(slots[0])|);
      FirstOfRecords(idOf, m, slots, k + 1);
      FirstOfRecords(idOf, m, slots, |slots|);
      assert slots[..|slots|] == slots && slots[1..][..|slots| - 1] == slots[1..];
      LiveOrDead(slots[0]);
      ScanCut(idOf, file, n + |Record(slots[0])|, length,
              if slots[0].Live? then Put(idOf, m, slots[0].key) else m, slots[1..]);
    }
  }

  lemma NotEmpty(slots: seq<Slot>)
    requires |Records(slots)| > 0
    ensures slots != []
  {
  }

  lemma NothingRead(idOf: IdFunction, m: Keys, slots: seq<Slot>)
    ensures |Records(slots[..0])| == 0 && Replay(idOf, m, slots[..0]) == m
  {
  }

  lemma LiveOrDead(slot: Slot)
    requires ValidSlot(slot)
    ensures SlotKey(slot).typ == TYPE_DELETED <==> slot.Dead?
  {
  }

  /** The first k records are the first one and the k - 1 after it. */
  lemma FirstOfRecords(idOf: IdFunction, m: Keys, slots: seq<Slot>, k: nat)
    requires 0 < k <= |slots|
    ensures |Records(slots[..k])| == |Record(slots[0])| + |Records(slots[1..][..k - 1])|
    ensures Replay(idOf, m, slots[..k])
            == Replay(idOf, if slots[0].Live? then Put(idOf, m, slots[0].key) else m, slots[1..][..k - 1])
  {
    hide Record, Put;
    assert slots[..k][1..] == slots[1..][..k - 1];
  }

  /** The cut is where a prefix of the records ends, if one ends at the length. */
  lemma {:induction false} CutIs(slots: seq<Slot>, k: nat, length: nat)
    requires ValidSlots(slots) && k <= |slots| && length == |Records(slots[..k])|
    ensures CutAt(slots, length) == k
    decreases |slots|
  {
    hide Record, ValidSlot;
    if k > 0 {
      RecordNotEmpty(slots[0]);
      assert slots[..k][1..] == slots[1..][..k - 1];
      CutIs(slots[1..], k - 1, length - |Record(slots[0])|);
    }
  }

  lemma RecordNotEmpty(slot: Slot)
    requires ValidSlot(slot)
    ensures |Record(slot)| > 0
  {
    RecordParses(slot, Record(slot), 0);
  }

  /** All slots from k on are dead. */
  ghost predicate DeadFrom(slots: seq<Slot>, k: nat) {
    forall i :: k <= i < |slots| ==> slots[i].Dead?
  }

  /** The first k slots stand for all the keys if and only if the others are dead. */
  lemma SameKeysIffDead(idOf: IdFunction, slots: seq<Slot>, m: Keys, k: nat)
    requires k <= |slots| && Unique(idOf, slots) && Represents(idOf, slots, m)
    ensures var keys := Replay(idOf, Keys(map[], map[]), slots[..k]);
            && Represents(idOf, slots[..k], keys)
            && (keys == m <==> DeadFrom(slots, k))
  {
    hide ID, Replay;
    var empty, front := Keys(map[], map[]), slots[..k];
    assert [] + front == front && Represents(idOf, [], empty);
    ReplayRepresents(idOf, [], empty, front);
    var keys := Replay(idOf, empty, front);
    if !DeadFrom(slots, k) {
      var i :| k <= i < |slots| && slots[i].Live?;
      LiveBehindIsMissing(idOf, slots, m, k, i, keys);
    }
    if DeadFrom(slots, k) {
      SameSlots(idOf, slots, m, k);
      RepresentedOnce(idOf, front, m, keys);
    }
  }

  lemma LiveIsHeld(idOf: IdFunction, slots: seq<Slot>, m: Keys, i: nat)
    requires i < |slots| && slots[i].Live? && Represents(idOf, slots, m)
    ensures ID(idOf, slots[i].key) in m.keysByID && m.keysByID[ID(idOf, slots[i].key)] == slots[i].key
  {
    hide ID;
    assert HasSlot(slots, slots[i].key);
  }

  lemma SameSlots(idOf: IdFunction, slots: seq<Slot>, m: Keys, k: nat)
    requires k <= |slots| && DeadFrom(slots, k) && Represents(idOf, slots, m)
    ensures Represents(idOf, slots[..k], m)
  {
    hide ID;
    forall sk ensures HasSlot(slots[..k], sk) <==> HasSlot(slots, sk) {
      if HasSlot(slots, sk) {
        var i :| 0 <= i < |slots| && slots[i] == Live(sk);
        assert slots[..k][i] == Live(sk);
      }
    }
  }

  lemma PrefixSlot(slots: seq<Slot>, k: nat, sk: Skykey)
    requires k <= |slots|
    ensures HasSlot(slots[..k], sk) ==> HasSlot(slots, sk)
  {
  }

  lemma NotEarlier(idOf: IdFunction, slots: seq<Slot>, k: nat, i: nat)
    requires k <= i < |slots| && slots[i].Live? && Unique(idOf, slots)
    ensures !HasSlot(slots[..k], slots[i].key)
  {
    hide ID;
    forall j | 0 <= j < k ensures slots[..k][j] != slots[i] {
      assert slots[..k][j] == slots[j];
    }
  }

  lemma LiveBehindIsMissing(idOf: IdFunction, slots: seq<Slot>, m: Keys, k: nat, i: nat, keys: Keys)
    requires k <= i < |slots| && slots[i].Live? && Unique(idOf, slots)
    requires Represents(idOf, slots, m) && Represents(idOf, slots[..k], keys)
    ensures keys != m
  {
    hide ID, Unique, HasSlot;
    LiveIsHeld(idOf, slots, m, i);
    NotEarlier(idOf, slots, k, i);
  }

  /** Fewer slots never stand for the new key. */
  lemma NewKeyIsMissing(idOf: IdFunction, slots: seq<Slot>, m: Keys, sk: Skykey, k: nat, keys: Keys)
    requires k <= |slots| && Represents(idOf, slots, m) && Represents(idOf, slots[..k], keys)
    requires Fresh(m, ID(idOf, sk), sk.name)
    ensures keys != Put(idOf, m, sk)
  {
    hide ID, HasSlot;
    var id := ID(idOf, sk);
    assert Put(idOf, m, sk).keysByID[id] == sk;
    if id in keys.keysByID {
      PrefixSlot(slots, k, keys.keysByID[id]);
    }
  }

  /** The length ends the k-th record, and there are only deleted keys behind it. */
  ghost predicate CutsTombstones(slots: seq<Slot>, length: nat, k: nat) {
    k <= |slots| && length == HEADER_LEN + |Records(slots[..k])| && DeadFrom(slots, k)
  }

  /** A file that claims to be shorter loads the same keys if and only if only tombstones are cut off; it never
      loads the new key. */
  lemma ShorterFile(idOf: IdFunction, file: seq<byte>, fileLen: nat, slots: seq<Slot>, m: Keys, sk: Skykey,
                    torn: seq<byte>, length: nat)
    requires IsJournal(file, VERSION, fileLen, slots) && Unique(idOf, slots) && Represents(idOf, slots, m)
    requires Fresh(m, ID(idOf, sk), sk.name) && length < fileLen <= |torn|
    requires torn[HEADER_LEN..fileLen] == file[HEADER_LEN..fileLen] && LoadHeader(torn) == Ok((VERSION, length))
    ensures var loaded := LoadFile(idOf, torn);
            && (loaded.Ok? && loaded.value.keys == m <==> exists k: nat :: CutsTombstones(slots, length, k))
            && (loaded.Ok? ==> loaded.value.keys != Put(idOf, m, sk) && loaded.value.fileLen == length)
  {
    hide Records, Represents, Unique, Fresh, ID, Put, Header, LoadHeader, Replay, DeadFrom, CutAt, ValidSlots, Scan;
    var k := CutAt(slots, length - HEADER_LEN);
    var empty := Keys(map[], map[]);
    ScanCut(idOf, torn, HEADER_LEN, length, empty, slots);
    LoadShort(idOf, torn, length, Replay(idOf, empty, slots[..k]), HEADER_LEN + |Records(slots[..k])|);
    SameKeysIffDead(idOf, slots, m, k);
    NewKeyIsMissing(idOf, slots, m, sk, k, Replay(idOf, empty, slots[..k]));
    if exists i: nat :: CutsTombstones(slots, length, i) {
      var i: nat :| CutsTombstones(slots, length, i);
      CutIs(slots, i, length - HEADER_LEN);
    }
    if length == HEADER_LEN + |Records(slots[..k])| && DeadFrom(slots, k) {
      assert CutsTombstones(slots, length, k);
    }
  }

  lemma LoadShort(idOf: IdFunction, file: seq<byte>, length: nat, keys: Keys, n: nat)
    requires |file| >= HEADER_LEN && length <= MAX_FILE_LEN && LoadHeader(file) == Ok((VERSION, length))
    requires Scan(idOf, file, HEADER_LEN, length, Keys(map[], map[])) == Ok((keys, n))
    ensures LoadFile(idOf, file) == if n == length then Ok(Loaded(keys, length, file)) else Err(TrailingRecord)
  {
    hide LoadHeader, Scan;
  }

  // ----- Exactly when ----------------------------------------------------------------------

  /** The file with the record on disk and the header written up to t bytes of its length. */
  ghost function Torn(file: seq<byte>, fileLen: nat, sk: Skykey, t: nat): seq<byte>
    requires t <= 8
  {
    var h := Header(VERSION, fileLen + |Record(Live(sk))|);
    HeaderLength(VERSION, fileLen + |Record(Live(sk))|);
    WriteAt(WriteAt(file, fileLen, Record(Live(sk))), 0, h[..32 + t])
  }

  /** A crash after t of the eight length bytes reloads the old keys or these and the new one if and only if no
      byte of the length is written yet, or the bytes that are not written do not change, or the shorter
      length that is then read cuts off nothing but tombstones. */
  lemma TornLengthIsSafeIff(idOf: IdFunction, file: seq<byte>, fileLen: nat, slots: seq<Slot>, m: Keys, sk: Skykey,
                            t: nat)
    requires IsJournal(file, VERSION, fileLen, slots) && Unique(idOf, slots) && Represents(idOf, slots, m)
    requires IsValid(sk) && Fresh(m, ID(idOf, sk), sk.name) && t <= 8
    requires fileLen + |Record(Live(sk))| <= MAX_FILE_LEN
    ensures var written := fileLen + |Record(Live(sk))|;
            var loaded := LoadFile(idOf, Torn(file, fileLen, sk, t));
            loaded.Ok? && (loaded.value.keys == m || loaded.value.keys == Put(idOf, m, sk))
            <==>
            || t == 0
            || fileLen / Pow(256, t) == written / Pow(256, t)
            || exists k: nat :: CutsTombstones(slots, Mixed(fileLen, written, t), k)
    ensures var written := fileLen + |Record(Live(sk))|;
            var loaded := LoadFile(idOf, Torn(file, fileLen, sk, t));
            loaded.Ok? && t > 0 && fileLen / Pow(256, t) != written / Pow(256, t) ==> loaded.value.fileLen < fileLen
  {
    hide IsJournal, LoadFile, WriteAt, Header, Represents, Unique, Put, ID, Fresh, IsValid, Record, Pow, Mixed,
      LoadHeader, CutsTombstones;
    var r := Record(Live(sk));
    var written, full := fileLen + |r|, WriteAt(file, fileLen, r);
    RecordSize(sk);
    AddIsCrashSafe(idOf, file, fileLen, slots, m, sk, |r|);
    assert r[..|r|] == r;
    TornAdd(file, VERSION, fileLen, slots, r);
    TornLengthFile(full, fileLen, slots, written, t);
    var length := Mixed(fileLen, written, t);
    var torn := WriteAt(full, 0, Header(VERSION, length));
    if t == 0 {
      TornHeader(full, fileLen, slots, written, 32);
    } else {
      MixedNear(fileLen, written, t);
      if length < fileLen {
        TornHeaderLoads(full, fileLen, slots, length);
        ShorterFile(idOf, full, fileLen, slots, m, sk, torn, length);
      }
    }
  }

  lemma TornHeaderLoads(file: seq<byte>, fileLen: nat, slots: seq<Slot>, length: nat)
    requires IsJournal(file, VERSION, fileLen, slots) && length < fileLen
    ensures var torn := WriteAt(file, 0, Header(VERSION, length));
            && |torn| >= fileLen >= HEADER_LEN
            && torn[HEADER_LEN..fileLen] == file[HEADER_LEN..fileLen]
            && LoadHeader(torn) == Ok((VERSION, length))
  {
    hide Records, ValidSlots, Header, WriteAt, LoadHeader;
    var h := Header(VERSION, length);
    HeaderLength(VERSION, length);
    WriteAtParts(file, 0, h);
    var torn := WriteAt(file, 0, h);
    assert |torn| == HEADER_LEN + |torn[HEADER_LEN..]|;
    SubSlice(torn, HEADER_LEN, |torn|, 0, fileLen - HEADER_LEN);
    SubSlice(file, HEADER_LEN, |file|, 0, fileLen - HEADER_LEN);
    HeaderParses(torn, VERSION, length);
  }

  lemma RecordSize(sk: Skykey)
    requires IsValid(sk)
    ensures 0 < |Record(Live(sk))| < 256
  {
    LiveRecordParses(sk, []);
  }
}
