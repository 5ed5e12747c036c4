/** exFAT directory parsing: live and deleted entry sets of 32-byte slots. */
module ExFatDirectory {
  import opened Machine

  datatype RecordKind = FileRecord | FolderRecord | VolumeLabel | AllocationBitmap | UpCaseTable

  /** Names stay UTF-16 units; the root, the allocation bitmap and the up-case table carry fixed labels ("/",
      "Allocation Bitmap" and "Up-Case Table"). */
  datatype RecordName = Units(units: seq<U16>) | RootLabel | BitmapLabel | UpCaseLabel

  datatype DirectoryRecord = DirectoryRecord(
    name: RecordName, attributes: Byte, cluster: U32, size: U64, deleted: bool, kind: RecordKind, secondaryCount: Byte,
    created: U32, modified: U32, accessed: U32)

  // ----- what a buffer holds -----

  /** The units of a 15-unit name field, up to the first zero. */
  function NameUnits(data: seq<Byte>, at: nat, k: nat): seq<U16>
    requires k <= 15 && at + 32 <= |data|
    decreases 15 - k
  {
    if k == 15 || U16At(data, at + 2 + 2 * k) == 0 then []
    else [U16At(data, at + 2 + 2 * k)] + NameUnits(data, at, k + 1)
  }

  datatype StreamInfo = StreamInfo(cluster: U32, size: U64, nameLength: Byte)

  function SlotStream(data: seq<Byte>, slot: nat): Option<StreamInfo>
    requires slot + 32 <= |data|
  {
    if data[slot] == 0xC0 || data[slot] == 0x40
    then Some(StreamInfo(U32At(data, slot + 20), U64At(data, slot + 24), data[slot + 3]))
    else None
  }

  function SlotUnits(data: seq<Byte>, slot: nat): seq<U16>
    requires slot + 32 <= |data|
  {
    if data[slot] == 0xC1 || data[slot] == 0x41 then NameUnits(data, slot, 0) else []
  }

  /** The last stream extension among slots k to n behind `at`, if any. */
  function LastStream(data: seq<Byte>, at: nat, k: nat, n: nat): Option<StreamInfo>
    requires k <= n + 1 && at + 32 * n + 32 <= |data|
    decreases n + 1 - k
  {
    if k == n + 1 then None else OrElse(LastStream(data, at, k + 1, n), SlotStream(data, at + 32 * k))
  }

  function OrElse<T>(a: Option<T>, b: Option<T>): Option<T> {
    if a.Some? then a else b
  }

  /** All name units in slots k to n. */
  function AllUnits(data: seq<Byte>, at: nat, k: nat, n: nat): seq<U16>
    requires k <= n + 1 && at + 32 * n + 32 <= |data|
    decreases n + 1 - k
  {
    if k == n + 1 then [] else SlotUnits(data, at + 32 * k) + AllUnits(data, at, k + 1, n)
  }

  /** The secondary slots count only when they lie wholly in the buffer. */
  predicate SecondariesFit(data: seq<Byte>, at: nat)
    requires at + 32 <= |data|
  {
    at + 32 * (data[at + 1] as int) + 32 <= |data|
  }

  /** The record whose file entry is at `at`. */
  function RecordAt(data: seq<Byte>, at: nat, deleted: bool): DirectoryRecord
    requires at + 32 <= |data|
  {
    var n: nat := data[at + 1];
    var nameLength := U16At(data, at + 28);
    var found := if SecondariesFit(data, at) then LastStream(data, at, 1, n) else None;
    var stream := if found.Some? then found.value else StreamInfo(0, 0, nameLength % 0x100);
    var expected := if stream.nameLength != 0 then stream.nameLength else nameLength;
    var units := Truncate(if SecondariesFit(data, at) then AllUnits(data, at, 1, n) else [], Min(expected, 15 * n));
    DirectoryRecord(
      Units(if units == [] && deleted then [0x3F] else units),
      data[at + 4], stream.cluster, stream.size, deleted,
      if (data[at + 4] / 16) % 2 == 1 then FolderRecord else FileRecord,
      n, U32At(data, at + 8), U32At(data, at + 12), U32At(data, at + 16))
  }

  function Truncate(units: seq<U16>, n: nat): seq<U16> {
    if n < |units| then units[..n] else units
  }

  function SystemRecord(name: RecordName, cluster: U32, kind: RecordKind): DirectoryRecord {
    DirectoryRecord(name, 0, cluster, 0, false, kind, 0, 0, 0, 0)
  }

  /** What the slot at `at` contributes on its own account: at most one record. */
  function SlotRecords(data: seq<Byte>, at: nat): seq<DirectoryRecord>
    requires at + 32 <= |data|
  {
    if data[at] == 0x05 then [RecordAt(data, at, true)]
    else if data[at] == 0x85 then [RecordAt(data, at, false)]
    else if data[at] == 0x83 then [SystemRecord(Units(Truncate(NameUnits(data, at, 0), data[at + 1])), 0, VolumeLabel)]
    else if data[at] == 0x81 then
      [SystemRecord(BitmapLabel, U32At(data, at + 4), AllocationBitmap)]
    else if data[at] == 0x82 then [SystemRecord(UpCaseLabel, U32At(data, at + 4), UpCaseTable)]
    else []
  }

  /** All records from `at` on, up to a slot of type 0xFF or the last whole slot. */
  function Records(data: seq<Byte>, at: nat): seq<DirectoryRecord>
    decreases |data| - at
  {
    if at + 32 > |data| || data[at] == 0xFF then [] else SlotRecords(data, at) + Records(data, at + 32)
  }

  // ----- the parser -----

  lemma NextUnit(data: seq<Byte>, at: nat, k: nat, units: seq<U16>)
    requires k < 15 && at + 32 <= |data|
    ensures var unit := U16At(data, at + 2 + 2 * k);
      units + NameUnits(data, at, k) == if unit == 0 then units else (units + [unit]) + NameUnits(data, at, k + 1)
  {}

  method ReadNameUnits(data: seq<Byte>, at: nat) returns (units: seq<U16>)
    requires at + 32 <= |data|
    ensures units == NameUnits(data, at, 0)
  {
    units := [];
    for k := 0 to 15
      invariant NameUnits(data, at, 0) == units + NameUnits(data, at, k)
    {
      var unit := U16At(data, at + 2 + 2 * k);
      NextUnit(data, at, k, units);
      if unit == 0 {
        break;
      }
      units := units + [unit];
    }
  }

  /** What one secondary slot adds to what was read before it. */
  method ReadSecondary(data: seq<Byte>, slot: nat, stream: Option<StreamInfo>, units: seq<U16>)
    returns (newStream: Option<StreamInfo>, newUnits: seq<U16>)
    requires slot + 32 <= |data|
    ensures newStream == OrElse(SlotStream(data, slot), stream) && newUnits == units + SlotUnits(data, slot)
  {
    newStream, newUnits := stream, units;
    if data[slot] == 0xC0 || data[slot] == 0x40 {
      newStream := Some(StreamInfo(U32At(data, slot + 20), U64At(data, slot + 24), data[slot + 3]));
    } else if data[slot] == 0xC1 || data[slot] == 0x41 {
      var more := ReadNameUnits(data, slot);
      newUnits := units + more;
    }
  }

  /** The stream extension and the units of the slots before k. */
  ghost predicate ReadBefore(data: seq<Byte>, at: nat, k: nat, n: nat, stream: Option<StreamInfo>, units: seq<U16>)
    requires 1 <= k <= n + 1 && at + 32 * n + 32 <= |data|
  {
    && LastStream(data, at, 1, n) == OrElse(LastStream(data, at, k, n), stream)
    && AllUnits(data, at, 1, n) == units + AllUnits(data, at, k, n)
  }

  lemma ReadOneMore(data: seq<Byte>, at: nat, k: nat, n: nat, stream: Option<StreamInfo>, units: seq<U16>,
                    newStream: Option<StreamInfo>, newUnits: seq<U16>)
    requires 1 <= k <= n && at + 32 * n + 32 <= |data| && ReadBefore(data, at, k, n, stream, units)
    requires newStream == OrElse(SlotStream(data, at + 32 * k), stream)
    requires newUnits == units + SlotUnits(data, at + 32 * k)
    ensures ReadBefore(data, at, k + 1, n, newStream, newUnits) == true
  {
    Reassociate(units, SlotUnits(data, at + 32 * k), AllUnits(data, at, k + 1, n));
  }

  lemma Reassociate<T>(a: seq<T>, b: seq<T>, c: seq<T>)
    ensures a + b + c == a + (b + c)
  {}

  lemma NothingReadBefore(data: seq<Byte>, at: nat, n: nat)
    requires at + 32 * n + 32 <= |data|
    ensures ReadBefore(data, at, 1, n, None, []) == true
  {}

  lemma ReadToTheEnd(data: seq<Byte>, at: nat, n: nat, stream: Option<StreamInfo>, units: seq<U16>)
    requires at + 32 * n + 32 <= |data| && ReadBefore(data, at, n + 1, n, stream, units)
    ensures stream == LastStream(data, at, 1, n) && units == AllUnits(data, at, 1, n)
  {}

  /** The loop over the secondary slots. */
  method ReadSecondaries(data: seq<Byte>, at: nat, n: nat) returns (stream: Option<StreamInfo>, units: seq<U16>)
    requires at + 32 * n + 32 <= |data|
    ensures stream == LastStream(data, at, 1, n) && units == AllUnits(data, at, 1, n)
  {
    stream, units := None, [];
    NothingReadBefore(data, at, n);
    for index := 1 to n + 1
      invariant ReadBefore(data, at, index, n, stream, units) == true
    {
      var newStream, newUnits := ReadSecondary(data, at + 32 * index, stream, units);
      ReadOneMore(data, at, index, n, stream, units, newStream, newUnits);
      stream, units := newStream, newUnits;
    }
    ReadToTheEnd(data, at, n, stream, units);
  }

  method ParseRecord(data: seq<Byte>, at: nat, deleted: bool) returns (r: DirectoryRecord)
    requires at + 32 <= |data|
    ensures r == RecordAt(data, at, deleted)
  {
    var secondaryCount: nat := data[at + 1];
    var attributes := data[at + 4];
    var nameLength := U16At(data, at + 28);
    var stream: Option<StreamInfo> := None;
    var units: seq<U16> := [];
    if at + 32 * secondaryCount + 32 <= |data| {
      stream, units := ReadSecondaries(data, at, secondaryCount);
    }
    var info := if stream.Some? then stream.value else StreamInfo(0, 0, nameLength % 0x100);
    var capacity := 15 * secondaryCount;
    var expected := if info.nameLength != 0 then info.nameLength else nameLength;
    units := Truncate(units, Min(expected, capacity));
    var name := if units == [] then (if deleted then [0x3F] else []) else units;
    var kind := if (attributes / 16) % 2 == 1 then FolderRecord else FileRecord;
    r := DirectoryRecord(Units(name), attributes, info.cluster, info.size, deleted, kind, secondaryCount,
                         U32At(data, at + 8), U32At(data, at + 12), U32At(data, at + 16));
  }

  /** The record, if any, that the type byte of one slot announces. */
  method ParseSlot(data: seq<Byte>, offset: nat) returns (found: seq<DirectoryRecord>)
    requires offset + 32 <= |data|
    ensures found == SlotRecords(data, offset)
  {
    var typeByte := data[offset];
    if typeByte < 0x80 {
      if typeByte != 0x05 {
        return [];
      }
      var deleted := ParseRecord(data, offset, true);
      return [deleted];
    }
    if typeByte == 0x85 {
      var live := ParseRecord(data, offset, false);
      return [live];
    }
    if typeByte == 0x83 {
      var units := ReadNameUnits(data, offset);
      return [SystemRecord(Units(Truncate(units, data[offset + 1])), 0, VolumeLabel)];
    }
    if typeByte == 0x81 {
      return [SystemRecord(BitmapLabel, U32At(data, offset + 4), AllocationBitmap)];
    }
    if typeByte == 0x82 {
      return [SystemRecord(UpCaseLabel, U32At(data, offset + 4), UpCaseTable)];
    }
    found := [];
  }

  method ParseDirectoryEntries(data: seq<Byte>) returns (entries: seq<DirectoryRecord>)
    ensures entries == Records(data, 0)
  {
    entries := [];
    var offset := 0;
    while offset + 32 <= |data|
      invariant Records(data, 0) == entries + Records(data, offset)
    {
      if data[offset] == 0xFF {
        break;
      }
      var found := ParseSlot(data, offset);
      assert entries + (found + Records(data, offset + 32)) == entries + found + Records(data, offset + 32);
      entries := entries + found;
      offset := offset + 32;
    }
  }

  // ----- entry sets on disk -----

  /** A file as an exFAT writer records it. */
  datatype FileInfo = FileInfo(
    name: seq<U16>, attributes: Byte, cluster: U32, size: U64, deleted: bool, created: U32, modified: U32,
    accessed: U32)
  {
    /** One to 255 units, none of them zero. */
    predicate Valid() {
      1 <= |name| <= 255 && forall i | 0 <= i < |name| :: name[i] != 0
    }

    function NameSlots(): nat {
      DivCeil(|name|, 15)
    }

    /** Slots of the whole set: file entry, stream extension, name entries. */
    function SlotCount(): nat {
      2 + NameSlots()
    }

    /** Deleting clears the in-use bit of every slot. */
    function Type(live: Byte): Byte
      requires live >= 0x80
    {
      if deleted then live - 0x80 else live
    }

    /** The unit a writer stores at position i; the unused tail is zero. */
    function UnitAt(i: nat): U16 {
      if i < |name| then name[i] else 0
    }

    function AsRecord(): DirectoryRecord
      requires Valid()
    {
      DivCeilCovers(|name|, 15, 17);
      DirectoryRecord(Units(name), attributes, cluster, size, deleted,
                      if (attributes / 16) % 2 == 1 then FolderRecord else FileRecord,
                      1 + NameSlots(), created, modified, accessed)
    }
  }

  /** The slots from `at` on are an entry set of the file; bytes the format uses for checksums, flags and reserved
      fields, and the units behind the name, are arbitrary. A name length missing in the stream extension is taken from
      the file entry. */
  ghost predicate SetAt(data: seq<Byte>, at: nat, f: FileInfo)
    requires f.Valid()
  {
    && at + 32 * f.SlotCount() <= |data|
    && data[at] == f.Type(0x85) && data[at + 1] == 1 + f.NameSlots() && data[at + 4] == f.attributes
    && U32At(data, at + 8) == f.created && U32At(data, at + 12) == f.modified && U32At(data, at + 16) == f.accessed
    && data[at + 32] == f.Type(0xC0) && U32At(data, at + 52) == f.cluster && U64At(data, at + 56) == f.size
    && (if data[at + 35] != 0 then data[at + 35] else U16At(data, at + 28)) == |f.name|
    && NameSlotsAt(data, at, f, 1 + f.NameSlots())
  }

  /** Slots 2 to n of the set are name slots. */
  ghost predicate NameSlotsAt(data: seq<Byte>, at: nat, f: FileInfo, n: nat) {
    forall k: nat | 2 <= k <= n :: NameSlotOf(data, at, f, k)
  }

  ghost predicate NameSlotOf(data: seq<Byte>, at: nat, f: FileInfo, k: nat)
    requires k >= 2
  {
    NameSlotAt(data, at + 32 * k, f, k - 2)
  }

  ghost predicate NameSlotAt(data: seq<Byte>, at: nat, f: FileInfo, j: nat) {
    && at + 32 <= |data| && data[at] == f.Type(0xC1)
    && forall i: nat | i < 15 && 15 * j + i < |f.name| :: UnitStored(data, at, f.name, j, i)
  }

  /** Unit i of part j of the name, in the slot at `at`. */
  ghost predicate UnitStored(data: seq<Byte>, at: nat, name: seq<U16>, j: nat, i: nat)
    requires at + 32 <= |data| && i < 15 && 15 * j + i < |name|
  {
    U16At(data, at + 2 + 2 * i) == name[15 * j + i]
  }

  /** The part of the name that slot j holds from its k-th unit on. */
  ghost function NamePart(f: FileInfo, j: nat, k: nat): seq<U16>
    requires k <= 15
  {
    if 15 * j + k >= |f.name| then [] else f.name[15 * j + k..Min(|f.name|, 15 * j + 15)]
  }

  /** A name slot holds its part of the name; only a part shorter than the slot can be followed by other units. */
  lemma {:induction false} NameSlotUnits(data: seq<Byte>, at: nat, f: FileInfo, j: nat, k: nat)
    returns (tail: seq<U16>)
    requires f.Valid() && NameSlotAt(data, at, f, j) && k <= 15
    ensures NameUnits(data, at, k) == NamePart(f, j, k) + tail
    ensures 15 * j + 15 <= |f.name| ==> |tail| == 0
    decreases 15 - k
  {
    if k < 15 && 15 * j + k < |f.name| {
      tail := NameSlotUnits(data, at, f, j, k + 1);
      assert UnitStored(data, at, f.name, j, k);
      NamePartStep(f, j, k);
      Reassociate([f.name[15 * j + k]], NamePart(f, j, k + 1), tail);
    } else {
      tail := NameUnits(data, at, k);
      assert [] + tail == tail;
    }
  }

  lemma NamePartStep(f: FileInfo, j: nat, k: nat)
    requires k < 15 && 15 * j + k < |f.name|
    ensures NamePart(f, j, k) == [f.name[15 * j + k]] + NamePart(f, j, k + 1)
  {}

  /** The name from slot j on. */
  ghost function NameFrom(f: FileInfo, j: nat): seq<U16> {
    if 15 * j >= |f.name| then [] else f.name[15 * j..]
  }

  /** Slots k to n hold the name from part j on, and `tail` behind it. */
  ghost predicate HoldName(data: seq<Byte>, at: nat, f: FileInfo, j: nat, k: nat, n: nat, tail: seq<U16>)
    requires k <= n + 1 && at + 32 * n + 32 <= |data|
  {
    AllUnits(data, at, k, n) == NameFrom(f, j) + tail
  }

  /** Slot k holds part j of the name; only the last slot n can hold units behind it. */
  ghost predicate HoldsPart(data: seq<Byte>, at: nat, f: FileInfo, k: nat, n: nat) {
    2 <= k && at + 32 * k + 32 <= |data| && exists own :: IsPart(data, at, f, k, n, own)
  }

  ghost predicate IsPart(data: seq<Byte>, at: nat, f: FileInfo, k: nat, n: nat, own: seq<U16>)
    requires 2 <= k && at + 32 * k + 32 <= |data|
  {
    SlotUnits(data, at + 32 * k) == NamePart(f, k - 2, 0) + own && (k < n ==> |own| == 0)
  }

  lemma EverySlotHoldsPart(data: seq<Byte>, at: nat, f: FileInfo, n: nat)
    requires f.Valid() && NameSlotsAt(data, at, f, n) && at + 32 * n + 32 <= |data| && 15 * (n - 2) < |f.name|
    ensures forall k: nat | 2 <= k <= n :: HoldsPart(data, at, f, k, n)
  {
    forall k: nat | 2 <= k <= n ensures HoldsPart(data, at, f, k, n) {
      assert NameSlotOf(data, at, f, k);
      var own := SlotIsPart(data, at, f, k, n);
    }
  }

  lemma SlotIsPart(data: seq<Byte>, at: nat, f: FileInfo, k: nat, n: nat) returns (own: seq<U16>)
    requires f.Valid() && 2 <= k <= n && NameSlotOf(data, at, f, k) && 15 * (n - 2) < |f.name|
    ensures IsPart(data, at, f, k, n, own)
  {
    own := NameSlotUnits(data, at + 32 * k, f, k - 2, 0);
  }

  /** The units in the name slots, of which slot k is the j-th, are the name, followed at most by what the last slot
      holds behind it. */
  lemma {:induction false} SlotsHoldName(data: seq<Byte>, at: nat, f: FileInfo, j: nat, k: nat, n: nat)
    returns (tail: seq<U16>)
    requires k == j + 2 <= n + 1 && at + 32 * n + 32 <= |data| && |f.name| <= 15 * (n - 1)
    requires forall i: nat | k <= i <= n :: HoldsPart(data, at, f, i, n)
    ensures HoldName(data, at, f, j, k, n, tail) == true
    decreases n + 1 - k
  {
    if k == n + 1 {
      tail := NoSlotIsLeft(data, at, f, j, k, n);
    } else {
      assert HoldsPart(data, at, f, k, n);
      var own :| IsPart(data, at, f, k, n, own);
      var others := SlotsHoldName(data, at, f, j + 1, k + 1, n);
      tail := SlotHoldsPart(data, at, f, j, k, n, own, others);
    }
  }

  lemma NoSlotIsLeft(data: seq<Byte>, at: nat, f: FileInfo, j: nat, k: nat, n: nat) returns (tail: seq<U16>)
    requires k == n + 1 && at + 32 * n + 32 <= |data| && |f.name| <= 15 * j
    ensures HoldName(data, at, f, j, k, n, tail) == true
  {
    tail := [];
  }

  lemma SlotHoldsPart(data: seq<Byte>, at: nat, f: FileInfo, j: nat, k: nat, n: nat, own: seq<U16>, others: seq<U16>)
    returns (tail: seq<U16>)
    requires k == j + 2 <= n && at + 32 * n + 32 <= |data| && |f.name| <= 15 * (n - 1)
    requires IsPart(data, at, f, k, n, own) && HoldName(data, at, f, j + 1, k + 1, n, others)
    ensures HoldName(data, at, f, j, k, n, tail) == true
  {
    var units, behind := SlotUnits(data, at + 32 * k), AllUnits(data, at, k + 1, n);
    UnitsStep(data, at, k, n, units);
    tail := NameGoesOn(f, j, n - 1, AllUnits(data, at, k, n), units, behind, own, others);
  }

  lemma UnitsStep(data: seq<Byte>, at: nat, k: nat, n: nat, units: seq<U16>)
    requires k <= n && at + 32 * n + 32 <= |data| && units == SlotUnits(data, at + 32 * k)
    ensures AllUnits(data, at, k, n) == units + AllUnits(data, at, k + 1, n)
  {}

  lemma NameGoesOn(f: FileInfo, j: nat, n: nat, whole: seq<U16>, units: seq<U16>, behind: seq<U16>, own: seq<U16>,
                   others: seq<U16>)
    returns (tail: seq<U16>)
    requires j < n && |f.name| <= 15 * n && (j + 1 < n ==> |own| == 0)
    requires whole == units + behind && units == NamePart(f, j, 0) + own && behind == NameFrom(f, j + 1) + others
    ensures whole == NameFrom(f, j) + tail
  {
    assert NameFrom(f, j) == NamePart(f, j, 0) + NameFrom(f, j + 1);
    tail := own + others;
  }

  lemma TruncatedName(units: seq<U16>, name: seq<U16>, n: nat)
    requires name <= units && n == |name|
    ensures Truncate(units, n) == name
  {}

  lemma NameSlotsCover(f: FileInfo)
    requires f.Valid()
    ensures 15 * (f.NameSlots() - 1) < |f.name| <= 15 * f.NameSlots()
  {
    DivCeilCovers(|f.name|, 15, f.NameSlots());
    DivCeilCovers(|f.name|, 15, f.NameSlots() - 1);
  }

  lemma StreamOfSet(data: seq<Byte>, at: nat, f: FileInfo, n: nat)
    requires f.Valid() && SetAt(data, at, f) && n == 1 + f.NameSlots()
    ensures LastStream(data, at, 1, n) == Some(StreamInfo(f.cluster, f.size, data[at + 35]))
  {
    forall k: nat | 1 < k <= n ensures NoStreamAt(data, at, k) {
      assert NameSlotOf(data, at, f, k);
    }
    LastStreamIs(data, at, 1, 1, n);
  }

  lemma NameOfSet(data: seq<Byte>, at: nat, f: FileInfo, n: nat)
    requires f.Valid() && SetAt(data, at, f) && n == 1 + f.NameSlots()
    ensures f.name <= AllUnits(data, at, 1, n)
  {
    NameSlotsCover(f);
    EverySlotHoldsPart(data, at, f, n);
    var tail := SlotsHoldName(data, at, f, 0, 2, n);
    NameIsInFront(data, at, f, n, tail);
  }

  lemma NameIsInFront(data: seq<Byte>, at: nat, f: FileInfo, n: nat, tail: seq<U16>)
    requires n >= 1 && at + 32 * n + 32 <= |data| && data[at + 32] in {0xC0, 0x40}
    requires HoldName(data, at, f, 0, 2, n, tail)
    ensures f.name <= AllUnits(data, at, 1, n)
  {
    StreamHasNoUnits(data, at, n);
    WholeName(f);
    InFront(AllUnits(data, at, 1, n), f.name, tail);
  }

  lemma StreamHasNoUnits(data: seq<Byte>, at: nat, n: nat)
    requires n >= 1 && at + 32 * n + 32 <= |data| && data[at + 32] in {0xC0, 0x40}
    ensures AllUnits(data, at, 1, n) == AllUnits(data, at, 2, n)
  {
    var units := SlotUnits(data, at + 32);
    UnitsStep(data, at, 1, n, units);
    NothingInFront(AllUnits(data, at, 1, n), units, AllUnits(data, at, 2, n));
  }

  lemma NothingInFront<T>(whole: seq<T>, front: seq<T>, behind: seq<T>)
    requires whole == front + behind && |front| == 0
    ensures whole == behind
  {}

  lemma WholeName(f: FileInfo)
    ensures NameFrom(f, 0) == f.name
  {}

  lemma InFront<T>(whole: seq<T>, name: seq<T>, tail: seq<T>)
    requires whole == name + tail
    ensures name <= whole
  {}

  /** Parsing an entry set gives back the file. */
  lemma RecordOfSet(data: seq<Byte>, at: nat, f: FileInfo)
    requires f.Valid() && SetAt(data, at, f)
    ensures RecordAt(data, at, f.deleted) == f.AsRecord()
  {
    var n := 1 + f.NameSlots();
    StreamOfSet(data, at, f, n);
    NameOfSet(data, at, f, n);
    NameSlotsCover(f);
    TruncatedName(AllUnits(data, at, 1, n), f.name, |f.name|);
  }

  lemma SlotYields(data: seq<Byte>, at: nat)
    requires at + 32 <= |data| && data[at] != 0xFF
    ensures Records(data, at) == SlotRecords(data, at) + Records(data, at + 32)
  {}

  /** A slot of any other type, 0x00 included, is passed over. */
  lemma SilentSlot(data: seq<Byte>, at: nat)
    requires at + 32 <= |data| && data[at] !in {0x05, 0x81, 0x82, 0x83, 0x85, 0xFF}
    ensures Records(data, at) == Records(data, at + 32)
  {
    SlotYields(data, at);
    assert SlotRecords(data, at) == [];
  }

  /** Slot type 0xFF ends the directory, and so does the end of the buffer. */
  lemma DirectoryEnds(data: seq<Byte>, at: nat)
    requires at + 32 <= |data| ==> data[at] == 0xFF
    ensures Records(data, at) == []
  {}

  /** A volume label of up to eleven units. */
  lemma LabelParsesBack(data: seq<Byte>, at: nat, text: seq<U16>)
    requires at + 32 <= |data| && data[at] == 0x83 && data[at + 1] == |text| <= 11
    requires forall i | 0 <= i < |text| :: text[i] != 0 && U16At(data, at + 2 + 2 * i) == text[i]
    ensures Records(data, at)
         == [DirectoryRecord(Units(text), 0, 0, 0, false, VolumeLabel, 0, 0, 0, 0)] + Records(data, at + 32)
  {
    SlotYields(data, at);
    LabelUnits(data, at, text, 0);
    assert text[0..] == text;
    assert Truncate(NameUnits(data, at, 0), |text|) == text;
  }

  lemma {:induction false} LabelUnits(data: seq<Byte>, at: nat, text: seq<U16>, k: nat)
    requires at + 32 <= |data| && k <= |text| <= 15
    requires forall i | 0 <= i < |text| :: text[i] != 0 && U16At(data, at + 2 + 2 * i) == text[i]
    ensures text[k..] <= NameUnits(data, at, k)
    decreases |text| - k
  {
    if k < |text| {
      LabelUnits(data, at, text, k + 1);
      assert text[k..] == [text[k]] + text[k + 1..];
    }
  }

  /** Of several stream extensions the last one counts. */
  lemma LastStreamWins(data: seq<Byte>, at: nat, i: nat, deleted: bool)
    requires at + 32 <= |data| && 1 <= i <= data[at + 1] && at + 32 + 32 * (data[at + 1] as int) <= |data|
    requires data[at + 32 * i] in {0xC0, 0x40}
    requires forall k: nat | i < k <= data[at + 1] :: NoStreamAt(data, at, k)
    ensures RecordAt(data, at, deleted).cluster == U32At(data, at + 32 * i + 20)
    ensures RecordAt(data, at, deleted).size == U64At(data, at + 32 * i + 24)
  {
    LastStreamIs(data, at, 1, i, data[at + 1]);
  }

  ghost predicate NoStreamAt(data: seq<Byte>, at: nat, k: nat) {
    at + 32 * k + 32 <= |data| && data[at + 32 * k] !in {0xC0, 0x40}
  }

  lemma {:induction false} LastStreamIs(data: seq<Byte>, at: nat, k: nat, i: nat, n: nat)
    requires k <= i <= n && at + 32 * n + 32 <= |data| && data[at + 32 * i] in {0xC0, 0x40}
    requires forall j: nat | i < j <= n :: NoStreamAt(data, at, j)
    ensures LastStream(data, at, k, n) == SlotStream(data, at + 32 * i)
    decreases n - k
  {
    if k < i {
      LastStreamIs(data, at, k + 1, i, n);
    } else {
      NoStreamIn(data, at, k + 1, n);
    }
  }

  lemma {:induction false} NoStreamIn(data: seq<Byte>, at: nat, k: nat, n: nat)
    requires k <= n + 1 && at + 32 * n + 32 <= |data| && forall i: nat | k <= i <= n :: NoStreamAt(data, at, i)
    ensures LastStream(data, at, k, n) == None
    decreases n + 1 - k
  {
    if k <= n {
      NoStreamIn(data, at, k + 1, n);
      assert NoStreamAt(data, at, k);
    }
  }

  /** A file entry whose secondary slots do not fit the buffer has no name, no cluster and no size. */
  lemma TruncatedSetIsEmpty(data: seq<Byte>, at: nat)
    requires at + 32 <= |data| < at + 32 + 32 * (data[at + 1] as int) && data[at] in {0x05, 0x85}
    ensures var deleted := data[at] == 0x05;
      var kind := if (data[at + 4] / 16) % 2 == 1 then FolderRecord else FileRecord;
      Records(data, at)
      == [DirectoryRecord(Units(if deleted then [0x3F] else []), data[at + 4], 0, 0, deleted, kind, data[at + 1],
                          U32At(data, at + 8), U32At(data, at + 12), U32At(data, at + 16))]
         + Records(data, at + 32)
  {
    SlotYields(data, at);
  }

  /** The system entries carry a start cluster. */
  lemma SystemEntriesParseBack(data: seq<Byte>, at: nat, cluster: U32)
    requires at + 32 <= |data| && data[at] in {0x81, 0x82} && Stores(data, at + 4, cluster, 4)
    ensures var name := if data[at] == 0x81 then BitmapLabel else UpCaseLabel;
      var kind := if data[at] == 0x81 then AllocationBitmap else UpCaseTable;
      Records(data, at)
      == [DirectoryRecord(name, 0, cluster, 0, false, kind, 0, 0, 0, 0)] + Records(data, at + 32)
  {
    SlotYields(data, at);
    StoredU32(data, at + 4, cluster);
  }

  ghost predicate IsSecondary(data: seq<Byte>, slot: nat) {
    slot + 32 <= |data| && data[slot] in {0xC0, 0x40, 0xC1, 0x41}
  }

  /** Slot k behind `at` is a secondary slot, live or deleted. */
  ghost predicate SecondaryAt(data: seq<Byte>, at: nat, k: nat) {
    IsSecondary(data, at + 32 * k)
  }

  lemma SetHasSecondaries(data: seq<Byte>, at: nat, f: FileInfo)
    requires f.Valid() && SetAt(data, at, f)
    ensures forall k: nat | 1 <= k < f.SlotCount() :: SecondaryAt(data, at, k)
  {
    forall k: nat | 1 <= k < f.SlotCount() ensures SecondaryAt(data, at, k) {
      if k >= 2 {
        assert NameSlotOf(data, at, f, k);
      }
    }
  }

  /** What does not change over any secondary slot does not change over a run of them. */
  lemma {:induction false} OverSecondaries<R>(data: seq<Byte>, at: nat, k: nat, n: nat, slot: nat, next: nat,
                                              from: nat -> R)
    requires k <= n && slot == at + 32 * k && next == at + 32 * n
    requires forall i: nat | k <= i < n :: SecondaryAt(data, at, i)
    requires forall s: nat | IsSecondary(data, s) :: from(s) == from(s + 32)
    ensures from(slot) == from(next)
    decreases n - k
  {
    if k < n {
      assert SecondaryAt(data, at, k);
      OverSecondaries(data, at, k + 1, n, slot + 32, next, from);
    }
  }

  /** Secondary slots never produce entries of their own. */
  lemma SecondarySlotsAreSilent(data: seq<Byte>, at: nat, n: nat, slot: nat, next: nat)
    requires 1 <= n && slot == at + 32 && next == at + 32 * n
    requires forall i: nat | 1 <= i < n :: SecondaryAt(data, at, i)
    ensures Records(data, slot) == Records(data, next)
  {
    var from := (s: nat) => Records(data, s);
    forall s: nat | IsSecondary(data, s) ensures from(s) == from(s + 32) {
      SilentSlot(data, s);
    }
    OverSecondaries(data, at, 1, n, slot, next, from);
  }

  lemma FileSlotYields(data: seq<Byte>, at: nat, f: FileInfo)
    requires f.Valid() && SetAt(data, at, f)
    ensures at + 32 <= |data| && data[at] != 0xFF && SlotRecords(data, at) == [f.AsRecord()]
  {
    RecordOfSet(data, at, f);
  }

  lemma RestOfSetIsSilent(data: seq<Byte>, at: nat, f: FileInfo, slot: nat, next: nat)
    requires f.Valid() && SetAt(data, at, f) && slot == at + 32 && next == at + 32 * f.SlotCount()
    ensures Records(data, slot) == Records(data, next)
  {
    SetHasSecondaries(data, at, f);
    SecondarySlotsAreSilent(data, at, f.SlotCount(), slot, next);
  }

  /** An entry set yields its file and nothing else. */
  lemma OneSetParsesBack(data: seq<Byte>, at: nat, f: FileInfo, next: nat)
    requires f.Valid() && SetAt(data, at, f) && next == at + 32 * f.SlotCount()
    ensures Records(data, at) == [f.AsRecord()] + Records(data, next)
  {
    FileSlotYields(data, at, f);
    SlotYields(data, at);
    RestOfSetIsSilent(data, at, f, at + 32, next);
  }

  ghost predicate AllValid(files: seq<FileInfo>) {
    forall i | 0 <= i < |files| :: files[i].Valid()
  }

  /** Where the entry sets of the files, one behind the other, end; none if they are not there. */
  ghost function EndOfSets(data: seq<Byte>, at: nat, files: seq<FileInfo>): Option<nat>
    requires AllValid(files)
    decreases |files|
  {
    if files == [] then Some(at)
    else if SetAt(data, at, files[0]) then EndOfSets(data, at + 32 * files[0].SlotCount(), files[1..])
    else None
  }

  ghost function AsRecords(files: seq<FileInfo>): seq<DirectoryRecord>
    requires AllValid(files)
  {
    if files == [] then [] else [files[0].AsRecord()] + AsRecords(files[1..])
  }

  lemma Regroup<T>(whole: seq<T>, head: seq<T>, middle: seq<T>, others: seq<T>, tail: seq<T>)
    requires whole == head + middle && middle == others + tail
    ensures whole == head + others + tail
  {}

  lemma SetParsesBackBefore(data: seq<Byte>, at: nat, f: FileInfo, next: nat, others: seq<DirectoryRecord>, end: nat)
    requires f.Valid() && SetAt(data, at, f) && next == at + 32 * f.SlotCount()
    requires Records(data, next) == others + Records(data, end)
    ensures Records(data, at) == [f.AsRecord()] + others + Records(data, end)
  {
    OneSetParsesBack(data, at, f, next);
    Regroup(Records(data, at), [f.AsRecord()], Records(data, next), others, Records(data, end));
  }

  /** Any run of live and deleted entry sets parses to exactly its files, in order, followed by whatever the rest of
      the buffer holds. */
  lemma {:induction false} SetsParseBack(data: seq<Byte>, at: nat, files: seq<FileInfo>, end: nat)
    requires AllValid(files) && EndOfSets(data, at, files) == Some(end)
    ensures Records(data, at) == AsRecords(files) + Records(data, end)
    decreases |files|
  {
    if files == [] {
      assert AsRecords(files) + Records(data, end) == Records(data, end);
    } else {
      var next := at + 32 * files[0].SlotCount();
      SetsParseBack(data, next, files[1..], end);
      SetParsesBackBefore(data, at, files[0], next, AsRecords(files[1..]), end);
    }
  }
}
