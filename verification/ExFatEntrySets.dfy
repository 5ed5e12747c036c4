/** A reference writer for exFAT entry sets, and the round trip through the directory parser. */
module ExFatEntrySets {
  import opened Machine
  import opened Evidence
  import opened ExFatDirectory

  function Le2(v: U16): (bs: seq<Byte>)
    ensures |bs| == 2
  {
    [v % 0x100, v / 0x100]
  }

  function Le4(v: U32): (bs: seq<Byte>)
    ensures |bs| == 4
  {
    Le2(v % 0x1_0000) + Le2(v / 0x1_0000)
  }

  function Le8(v: U64): (bs: seq<Byte>)
    ensures |bs| == 8
  {
    Le4(v % 0x1_0000_0000) + Le4(v / 0x1_0000_0000)
  }

  // ----- the slots of a set -----

  function FileSlot(f: FileInfo): (slot: seq<Byte>)
    requires f.Valid()
    ensures |slot| == 32
  {
    DivCeilCovers(|f.name|, 15, 17);
    [f.Type(0x85), 1 + f.NameSlots(), 0, 0, f.attributes, 0, 0, 0]
      + Le4(f.created) + Le4(f.modified) + Le4(f.accessed) + Zeros(12)
  }

  function StreamSlot(f: FileInfo): (slot: seq<Byte>)
    requires f.Valid()
    ensures |slot| == 32
  {
    [f.Type(0xC0), 1, 0, |f.name|] + Zeros(16) + Le4(f.cluster) + Le8(f.size)
  }

  function UnitsFrom(f: FileInfo, i: nat, end: nat): (bs: seq<Byte>)
    requires i <= end
    ensures |bs| == 2 * (end - i)
    decreases end - i
  {
    if i == end then [] else Le2(f.UnitAt(i)) + UnitsFrom(f, i + 1, end)
  }

  function NameSlot(f: FileInfo, j: nat): (slot: seq<Byte>)
    ensures |slot| == 32
  {
    [f.Type(0xC1), 0] + UnitsFrom(f, 15 * j, 15 * j + 15)
  }

  function NameSlotsFrom(f: FileInfo, j: nat, n: nat): (slots: seq<Byte>)
    requires j <= n
    ensures |slots| == 32 * (n - j)
    decreases n - j
  {
    if j == n then [] else NameSlot(f, j) + NameSlotsFrom(f, j + 1, n)
  }

  function Serialize(f: FileInfo): (set_: seq<Byte>)
    requires f.Valid()
    ensures |set_| == 32 * f.SlotCount()
  {
    FileSlot(f) + StreamSlot(f) + NameSlotsFrom(f, 0, f.NameSlots())
  }

  function SerializeAll(files: seq<FileInfo>): seq<Byte>
    requires AllValid(files)
  {
    if files == [] then [] else Serialize(files[0]) + SerializeAll(files[1..])
  }

  // ----- reading them back -----

  /** `bs` stands in `data` at `at`. */
  ghost predicate StandsAt(data: seq<Byte>, at: nat, bs: seq<Byte>) {
    at + |bs| <= |data| && forall i: nat | i < |bs| :: ByteStands(data, at, bs, i)
  }

  ghost predicate ByteStands(data: seq<Byte>, at: nat, bs: seq<Byte>, i: nat)
    requires at + |bs| <= |data| && i < |bs|
  {
    data[at + i] == bs[i]
  }

  lemma PartStands(data: seq<Byte>, at: nat, a: seq<Byte>, b: seq<Byte>)
    requires StandsAt(data, at, a + b)
    ensures StandsAt(data, at, a) && StandsAt(data, at + |a|, b)
  {
    forall i: nat | i < |a| ensures ByteStands(data, at, a, i) {
      assert ByteStands(data, at, a + b, i);
    }
    RestStands(data, at, at + |a|, a, b);
  }

  lemma RestStands(data: seq<Byte>, at: nat, next: nat, a: seq<Byte>, b: seq<Byte>)
    requires StandsAt(data, at, a + b) && next == at + |a|
    ensures StandsAt(data, next, b)
  {
    forall i: nat | i < |b| ensures ByteStands(data, next, b, i) {
      assert ByteStands(data, at, a + b, |a| + i);
    }
  }

  lemma Le2Stands(data: seq<Byte>, at: nat, v: U16)
    requires StandsAt(data, at, Le2(v))
    ensures U16At(data, at) == v
  {
    assert ByteStands(data, at, Le2(v), 0) && ByteStands(data, at, Le2(v), 1);
  }

  lemma Le4Stands(data: seq<Byte>, at: nat, v: U32)
    requires StandsAt(data, at, Le4(v))
    ensures U32At(data, at) == v
  {
    PartStands(data, at, Le2(v % 0x1_0000), Le2(v / 0x1_0000));
    Le2Stands(data, at, v % 0x1_0000);
    Le2Stands(data, at + 2, v / 0x1_0000);
  }

  lemma Le8Stands(data: seq<Byte>, at: nat, v: U64)
    requires StandsAt(data, at, Le8(v))
    ensures U64At(data, at) == v
  {
    PartStands(data, at, Le4(v % 0x1_0000_0000), Le4(v / 0x1_0000_0000));
    Le4Stands(data, at, v % 0x1_0000_0000);
    Le4Stands(data, at + 4, v / 0x1_0000_0000);
  }

  lemma FileSlotStands(data: seq<Byte>, at: nat, f: FileInfo)
    requires f.Valid() && StandsAt(data, at, FileSlot(f))
    ensures at + 32 <= |data|
    ensures data[at] == f.Type(0x85) && data[at + 1] == 1 + f.NameSlots() && data[at + 4] == f.attributes
    ensures U32At(data, at + 8) == f.created && U32At(data, at + 12) == f.modified && U32At(data, at + 16) == f.accessed
  {
    DivCeilCovers(|f.name|, 15, 17);
    var head: seq<Byte> := [f.Type(0x85), 1 + f.NameSlots(), 0, 0, f.attributes, 0, 0, 0];
    var a, b, c := Le4(f.created), Le4(f.modified), Le4(f.accessed);
    PartStands(data, at, head + a + b + c, Zeros(12));
    PartStands(data, at, head + a + b, c);
    PartStands(data, at, head + a, b);
    PartStands(data, at, head, a);
    Le4Stands(data, at + 8, f.created);
    Le4Stands(data, at + 12, f.modified);
    Le4Stands(data, at + 16, f.accessed);
    assert ByteStands(data, at, head, 0) && ByteStands(data, at, head, 1) && ByteStands(data, at, head, 4);
  }

  lemma StreamSlotStands(data: seq<Byte>, at: nat, f: FileInfo)
    requires f.Valid() && StandsAt(data, at, StreamSlot(f))
    ensures at + 32 <= |data| && data[at] == f.Type(0xC0) && data[at + 3] == |f.name|
    ensures U32At(data, at + 20) == f.cluster && U64At(data, at + 24) == f.size
  {
    var head: seq<Byte> := [f.Type(0xC0), 1, 0, |f.name|];
    PartStands(data, at, head + Zeros(16) + Le4(f.cluster), Le8(f.size));
    PartStands(data, at, head + Zeros(16), Le4(f.cluster));
    PartStands(data, at, head, Zeros(16));
    Le4Stands(data, at + 20, f.cluster);
    Le8Stands(data, at + 24, f.size);
    assert ByteStands(data, at, head, 0) && ByteStands(data, at, head, 3);
  }

  lemma {:induction false} UnitsStand(data: seq<Byte>, at: nat, f: FileInfo, i: nat, end: nat, k: nat)
    requires i + k < end && StandsAt(data, at, UnitsFrom(f, i, end))
    ensures at + 2 * k + 2 <= |data| && U16At(data, at + 2 * k) == f.UnitAt(i + k)
    decreases k
  {
    PartStands(data, at, Le2(f.UnitAt(i)), UnitsFrom(f, i + 1, end));
    if k == 0 {
      Le2Stands(data, at, f.UnitAt(i));
    } else {
      UnitsStand(data, at + 2, f, i + 1, end, k - 1);
    }
  }

  lemma NameSlotStands(data: seq<Byte>, at: nat, f: FileInfo, j: nat)
    requires StandsAt(data, at, NameSlot(f, j))
    ensures NameSlotAt(data, at, f, j) == true
  {
    var head: seq<Byte> := [f.Type(0xC1), 0];
    PartStands(data, at, head, UnitsFrom(f, 15 * j, 15 * j + 15));
    assert ByteStands(data, at, head, 0);
    forall i: nat | i < 15 && 15 * j + i < |f.name| ensures UnitStored(data, at, f.name, j, i) {
      UnitsStand(data, at + 2, f, 15 * j, 15 * j + 15, i);
    }
  }

  lemma NameSlotsSplit(data: seq<Byte>, slot: nat, f: FileInfo, j: nat, n: nat)
    requires j < n && StandsAt(data, slot, NameSlotsFrom(f, j, n))
    ensures StandsAt(data, slot, NameSlot(f, j)) == true
    ensures StandsAt(data, slot + 32, NameSlotsFrom(f, j + 1, n)) == true
  {
    PartStands(data, slot, NameSlot(f, j), NameSlotsFrom(f, j + 1, n));
  }

  /** Name slots j to n of the set at `at`. */
  ghost predicate NameSlotsBehind(data: seq<Byte>, at: nat, f: FileInfo, j: nat, n: nat) {
    forall k: nat | j + 2 <= k <= 1 + n :: NameSlotOf(data, at, f, k)
  }

  lemma {:induction false} NameSlotsStand(data: seq<Byte>, at: nat, f: FileInfo, j: nat, n: nat, slot: nat)
    requires j <= n && slot == at + 64 + 32 * j && StandsAt(data, slot, NameSlotsFrom(f, j, n))
    ensures NameSlotsBehind(data, at, f, j, n) == true
    decreases n - j
  {
    if j < n {
      NameSlotsSplit(data, slot, f, j, n);
      NameSlotStands(data, slot, f, j);
      NameSlotsStand(data, at, f, j + 1, n, slot + 32);
      OneMoreNameSlot(data, at, f, j, n, slot);
    }
  }

  lemma OneMoreNameSlot(data: seq<Byte>, at: nat, f: FileInfo, j: nat, n: nat, slot: nat)
    requires NameSlotAt(data, slot, f, j) && slot == at + 64 + 32 * j && NameSlotsBehind(data, at, f, j + 1, n)
    ensures NameSlotsBehind(data, at, f, j, n) == true
  {
    assert NameSlotOf(data, at, f, j + 2);
  }

  /** The writer produces entry sets. */
  lemma SerializedStands(data: seq<Byte>, at: nat, f: FileInfo)
    requires f.Valid() && StandsAt(data, at, Serialize(f))
    ensures SetAt(data, at, f) == true
  {
    SlotsStand(data, at, f);
    FileSlotStands(data, at, f);
    StreamSlotStands(data, at + 32, f);
    NameSlotsStand(data, at, f, 0, f.NameSlots(), at + 64);
  }

  lemma SlotsStand(data: seq<Byte>, at: nat, f: FileInfo)
    requires f.Valid() && StandsAt(data, at, Serialize(f))
    ensures StandsAt(data, at, FileSlot(f)) == true && StandsAt(data, at + 32, StreamSlot(f)) == true
    ensures StandsAt(data, at + 64, NameSlotsFrom(f, 0, f.NameSlots())) == true
    ensures at + 32 * f.SlotCount() <= |data|
  {
    PartStands(data, at, FileSlot(f) + StreamSlot(f), NameSlotsFrom(f, 0, f.NameSlots()));
    PartStands(data, at, FileSlot(f), StreamSlot(f));
  }

  lemma WrittenSplit(data: seq<Byte>, at: nat, files: seq<FileInfo>, end: nat) returns (next: nat)
    requires AllValid(files) && files != [] && StandsAt(data, at, SerializeAll(files))
    requires end == at + |SerializeAll(files)|
    ensures next == at + |Serialize(files[0])| && end == next + |SerializeAll(files[1..])|
    ensures StandsAt(data, at, Serialize(files[0])) == true && StandsAt(data, next, SerializeAll(files[1..])) == true
  {
    SerializeFirst(files);
    next := SplitOff(data, at, SerializeAll(files), Serialize(files[0]), SerializeAll(files[1..]), end);
  }

  lemma SerializeFirst(files: seq<FileInfo>)
    requires AllValid(files) && files != []
    ensures SerializeAll(files) == Serialize(files[0]) + SerializeAll(files[1..])
  {}

  lemma SplitOff(data: seq<Byte>, at: nat, whole: seq<Byte>, first: seq<Byte>, others: seq<Byte>, end: nat)
    returns (next: nat)
    requires whole == first + others && StandsAt(data, at, whole) && end == at + |whole|
    ensures next == at + |first| && end == next + |others|
    ensures StandsAt(data, at, first) == true && StandsAt(data, next, others) == true
  {
    PartStands(data, at, first, others);
    next := at + |first|;
  }

  ghost predicate SetsEndAt(data: seq<Byte>, at: nat, files: seq<FileInfo>, end: nat)
    requires AllValid(files)
  {
    EndOfSets(data, at, files) == Some(end)
  }

  lemma FirstSetStands(data: seq<Byte>, at: nat, files: seq<FileInfo>, next: nat, end: nat)
    requires AllValid(files) && files != [] && StandsAt(data, at, Serialize(files[0]))
    requires next == at + |Serialize(files[0])| && SetsEndAt(data, next, files[1..], end)
    ensures SetsEndAt(data, at, files, end) == true
  {
    SerializedStands(data, at, files[0]);
  }

  lemma {:induction false} WrittenSetsStand(data: seq<Byte>, at: nat, files: seq<FileInfo>, end: nat)
    requires AllValid(files) && StandsAt(data, at, SerializeAll(files)) && end == at + |SerializeAll(files)|
    ensures SetsEndAt(data, at, files, end) == true
    decreases |files|
  {
    if files != [] {
      var next := WrittenSplit(data, at, files, end);
      WrittenSetsStand(data, next, files[1..], end);
      FirstSetStands(data, at, files, next, end);
    }
  }

  /** Round trip: writing any files, live or deleted, and parsing the result gives the same files in order, then
      whatever the rest of the buffer holds. */
  lemma RoundTrip(files: seq<FileInfo>, written: seq<Byte>, rest: seq<Byte>)
    requires AllValid(files) && written == SerializeAll(files)
    ensures Records(written + rest, 0) == AsRecords(files) + Records(written + rest, |written|)
  {
    forall i: nat | i < |written| ensures ByteStands(written + rest, 0, written, i) {}
    WrittenSetsStand(written + rest, 0, files, |written|);
    assert SetsEndAt(written + rest, 0, files, |written|);
    SetsParseBack(written + rest, 0, files, |written|);
  }
}
