/** The NTFS update-sequence fixup: the last two bytes of every 512-byte sector carry a sequence number, the real
    bytes sit in an array. */
module NtfsFixup {
  import opened Machine

  /** Offset of the two trailer bytes of sector k. */
  function Trailer(k: nat): nat {
    512 * k + 510
  }

  function Put2(d: seq<Byte>, at: nat, source: nat): seq<Byte>
    requires at + 2 <= |d| && source + 2 <= |d|
  {
    d[at := d[source]][at + 1 := d[source + 1]]
  }

  /** The repair of sectors k to n-1, and whether every trailer up to there carried the sequence number. */
  function FixSectors(d: seq<Byte>, usa: nat, sequence: U16, k: nat, n: nat): (seq<Byte>, bool)
    requires k <= n && usa + 2 + 2 * n <= |d|
    decreases n - k
  {
    if k == n then (d, true)
    else if 512 * (k + 1) > |d| || U16At(d, Trailer(k)) != sequence then (d, false)
    else FixSectors(Put2(d, Trailer(k), usa + 2 + 2 * k), usa, sequence, k + 1, n)
  }

  /** The loop shared by the record and the index-block fixups. */
  method ApplySectors(data: array<Byte>, usa: nat, n: nat) returns (ok: bool)
    requires usa + 2 + 2 * n <= data.Length
    modifies data
    ensures (data[..], ok) == FixSectors(old(data[..]), usa, U16At(old(data[..]), usa), 0, n)
  {
    ghost var original := data[..];
    var sequence := data[usa] as int + 0x100 * (data[usa + 1] as int);
    for k := 0 to n
      invariant FixSectors(original, usa, sequence, 0, n) == FixSectors(data[..], usa, sequence, k, n)
    {
      if 512 * (k + 1) > data.Length {
        return false;
      }
      var trailer := 512 * k + 510;
      if data[trailer] as int + 0x100 * (data[trailer + 1] as int) != sequence {
        return false;
      }
      ghost var before := data[..];
      var low, high := data[usa + 2 + 2 * k], data[usa + 2 + 2 * k + 1];
      data[trailer] := low;
      data[trailer + 1] := high;
      assert data[..] == Put2(before, Trailer(k), usa + 2 + 2 * k);
    }
    ok := true;
  }

  /** The header checks of an MFT record: the update sequence array lies behind the header and inside the record, and
      has one entry per sector. */
  predicate RecordHeaderOk(d: seq<Byte>) {
    && |d| >= 8 && U16At(d, 6) >= 2 && 8 <= U16At(d, 4)
    && U16At(d, 4) + 2 * U16At(d, 6) <= |d|
    && |d| % 512 == 0 && U16At(d, 6) == |d| / 512 + 1
  }

  /** The repaired record, and whether it was accepted. */
  function FixedRecord(d: seq<Byte>): (seq<Byte>, bool) {
    if RecordHeaderOk(d) then FixSectors(d, U16At(d, 4), U16At(d, U16At(d, 4)), 0, U16At(d, 6) - 1) else (d, false)
  }

  /** Repairs an MFT record in place; a record that fails the header checks is left alone. */
  method ApplyUsaFixup(data: array<Byte>) returns (ok: bool)
    modifies data
    ensures (data[..], ok) == FixedRecord(old(data[..]))
  {
    if data.Length < 8 {
      return false;
    }
    var usaOffset := U16At(data[..], 4);
    var usaCount := U16At(data[..], 6);
    if usaCount < 2 {
      return false;
    }
    if usaOffset < 8 || usaOffset + 2 * usaCount > data.Length {
      return false;
    }
    if data.Length % 512 != 0 {
      return false;
    }
    if usaCount != data.Length / 512 + 1 {
      return false;
    }
    ok := ApplySectors(data, usaOffset, usaCount - 1);
  }

  /** The index-block variant: no alignment check, the number of sectors comes from the array, and a sector behind the
      end of the block is rejected inside the loop. It works on a private copy. */
  predicate IndexHeaderOk(d: seq<Byte>) {
    && |d| >= 40 && d[0..4] == [0x49, 0x4E, 0x44, 0x58]
    && U16At(d, 6) >= 2 && 8 <= U16At(d, 4) && U16At(d, 4) + 2 * U16At(d, 6) <= |d|
  }

  function FixedIndexBlock(data: seq<Byte>): Option<seq<Byte>> {
    if !IndexHeaderOk(data) then None
    else
      var (repaired, ok) := FixSectors(data, U16At(data, 4), U16At(data, U16At(data, 4)), 0, U16At(data, 6) - 1);
      if ok then Some(repaired) else None
  }

  method FixIndexBlock(data: seq<Byte>) returns (fixed: Option<seq<Byte>>)
    ensures fixed == FixedIndexBlock(data)
  {
    if |data| < 40 || data[0..4] != [0x49, 0x4E, 0x44, 0x58] || U16At(data, 6) < 2 {
      return None;
    }
    var usaOffset, usaCount := U16At(data, 4), U16At(data, 6);
    if usaOffset < 8 || usaOffset + 2 * usaCount > |data| {
      return None;
    }
    var copy := new Byte[|data|](i requires 0 <= i < |data| => data[i]);
    assert copy[..] == data;
    var ok := ApplySectors(copy, usaOffset, usaCount - 1);
    fixed := if ok then Some(copy[..]) else None;
  }

  // ----- what the fixup does -----

  /** Offset of the array entry that keeps the real trailer of sector k. */
  function Slot(usa: nat, k: nat): nat {
    usa + 2 + 2 * k
  }

  /** j lies in the trailer of one of the first n sectors. */
  ghost predicate InTrailer(j: int, n: nat) {
    exists s: nat :: s < n && IsTrailerOf(j, s)
  }

  /** j is one of the last two bytes of sector s. */
  ghost predicate IsTrailerOf(j: int, s: nat) {
    512 * s + 510 <= j < 512 * s + 512
  }

  ghost predicate SameByte(a: seq<Byte>, b: seq<Byte>, j: nat)
    requires j < |a| && j < |b|
  {
    a[j] == b[j]
  }

  ghost predicate Carries(d: seq<Byte>, s: nat, sequence: U16) {
    512 * s + 512 <= |d| && U16At(d, 512 * s + 510) == sequence
  }

  /** On every record: only trailer bytes ever change, and the fixup succeeds exactly when all n sectors exist and
      every one of their original trailers carries the sequence number. */
  lemma {:induction false} OnlyTrailersChange(d: seq<Byte>, usa: nat, sequence: U16, k: nat, n: nat)
    requires k <= n && usa + 2 + 2 * n <= |d|
    ensures var (r, ok) := FixSectors(d, usa, sequence, k, n);
      && |r| == |d|
      && (forall j | 0 <= j < |d| && !InTrailer(j, n) :: SameByte(r, d, j))
      && (forall j | 0 <= j < |d| && j < 512 * k :: r[j] == d[j])
      && (ok <==> forall s | k <= s < n :: Carries(d, s, sequence))
    decreases n - k
  {
    if k < n && Carries(d, k, sequence) {
      var d' := Put2(d, Trailer(k), Slot(usa, k));
      OnlyTrailersChange(d', usa, sequence, k + 1, n);
      assert IsTrailerOf(Trailer(k), k) && IsTrailerOf(Trailer(k) + 1, k);
      assert forall s | k < s < n :: Carries(d', s, sequence) <==> Carries(d, s, sequence);
    }
  }

  /** The array overlaps no trailer. */
  ghost predicate ArrayClear(usa: nat, n: nat) {
    forall s: nat | s < n :: ClearOf(usa, n, s)
  }

  ghost predicate ClearOf(usa: nat, n: nat, s: nat) {
    512 * s + 512 <= usa || usa + 2 + 2 * n <= 512 * s + 510
  }

  /** A successful fixup moves every array entry into its trailer. */
  lemma {:induction false} TrailersRestored(d: seq<Byte>, usa: nat, sequence: U16, k: nat, n: nat)
    requires k <= n && usa + 2 + 2 * n <= |d| && 512 * n <= |d| && ArrayClear(usa, n)
    requires FixSectors(d, usa, sequence, k, n).1
    ensures var r := FixSectors(d, usa, sequence, k, n).0;
      && |r| == |d|
      && forall s | k <= s < n :: Restored(r, d, usa, s)
    decreases n - k
  {
    if k < n {
      var d' := Put2(d, Trailer(k), Slot(usa, k));
      var r := FixSectors(d', usa, sequence, k + 1, n).0;
      OnlyTrailersChange(d', usa, sequence, k + 1, n);
      TrailersRestored(d', usa, sequence, k + 1, n);
      assert ClearOf(usa, n, k);
      forall s | k <= s < n ensures Restored(r, d, usa, s) {
        if s > k {
          assert Restored(r, d', usa, s);
        }
      }
    }
  }

  /** Trailer s of r is what slot s of d keeps. */
  ghost predicate Restored(r: seq<Byte>, d: seq<Byte>, usa: nat, s: nat)
    requires 512 * s + 512 <= |r| && usa + 2 * s + 4 <= |d|
  {
    r[512 * s + 510] == d[usa + 2 * s + 2] && r[512 * s + 511] == d[usa + 2 * s + 3]
  }

  /** p is d protected as a writer does it: each trailer is saved in its slot and stamped with the sequence number,
      which also heads the array; nothing else differs. */
  ghost predicate IsProtected(p: seq<Byte>, d: seq<Byte>, usa: nat, sequence: U16, n: nat)
    requires usa + 2 + 2 * n <= |d| && 512 * n <= |d|
  {
    && |p| == |d| && U16At(p, usa) == sequence
    && (forall s: nat | s < n :: Carries(p, s, sequence) && Restored(d, p, usa, s))
    && (forall j | 0 <= j < |d| && !InTrailer(j, n) && !(usa <= j < usa + 2 + 2 * n) :: SameByte(p, d, j))
  }

  /** r is d again, outside the array. */
  ghost predicate SameOutsideArray(r: seq<Byte>, d: seq<Byte>, usa: nat, n: nat) {
    |r| == |d| && forall j | 0 <= j < |d| && !(usa <= j < usa + 2 + 2 * n) :: SameByte(r, d, j)
  }

  lemma SectorsInvertProtection(d: seq<Byte>, p: seq<Byte>, usa: nat, sequence: U16, n: nat)
    requires 8 <= usa && usa + 2 + 2 * n <= |d| && 512 * n <= |d| && ArrayClear(usa, n)
    requires IsProtected(p, d, usa, sequence, n)
    ensures forall j | 0 <= j < 8 :: p[j] == d[j]
    ensures var (r, ok) := FixSectors(p, usa, sequence, 0, n); ok && SameOutsideArray(r, d, usa, n)
  {
    HeaderIsClear(n);
    forall j | 0 <= j < 8 ensures p[j] == d[j] {
      assert SameByte(p, d, j);
    }
    assert forall s | 0 <= s < n :: Carries(p, s, sequence);
    OnlyTrailersChange(p, usa, sequence, 0, n);
    TrailersRestored(p, usa, sequence, 0, n);
    var r := FixSectors(p, usa, sequence, 0, n).0;
    forall j | 0 <= j < |d| && !(usa <= j < usa + 2 + 2 * n) ensures SameByte(r, d, j) {
      ByteRestored(d, p, r, usa, sequence, n, j);
    }
  }

  /** A record of n sectors whose array of n + 1 entries lies behind the first eight bytes, inside the record and clear
      of the trailers: protected by any sequence number it is accepted, and every byte outside the array is back. */
  lemma FixupInvertsProtection(d: seq<Byte>, p: seq<Byte>, usa: U16, sequence: U16, n: nat)
    requires 1 <= n < 0xFFFF && |d| == 512 * n && Stores(d, 4, usa, 2) && Stores(d, 6, n + 1, 2)
    requires 8 <= usa && usa + 2 * (n + 1) <= |d| && ArrayClear(usa, n) && IsProtected(p, d, usa, sequence, n)
    ensures FixedRecord(p).1 && SameOutsideArray(FixedRecord(p).0, d, usa, n)
  {
    StoredU16(d, 4, usa);
    StoredU16(d, 6, n + 1);
    SectorsInvertProtection(d, p, usa, sequence, n);
  }

  /** So does the index-block fixup, on any block with its signature that holds the sectors its array counts. */
  lemma IndexFixupInvertsProtection(d: seq<Byte>, p: seq<Byte>, usa: U16, sequence: U16, n: nat)
    requires 1 <= n < 0xFFFF && 40 <= |d| && 512 * n <= |d| && d[0] == 'I' as int && d[1] == 'N' as int
    requires d[2] == 'D' as int && d[3] == 'X' as int && Stores(d, 4, usa, 2) && Stores(d, 6, n + 1, 2)
    requires 8 <= usa && usa + 2 * (n + 1) <= |d| && ArrayClear(usa, n) && IsProtected(p, d, usa, sequence, n)
    ensures FixedIndexBlock(p).Some? && SameOutsideArray(FixedIndexBlock(p).value, d, usa, n)
  {
    StoredU16(d, 4, usa);
    StoredU16(d, 6, n + 1);
    SectorsInvertProtection(d, p, usa, sequence, n);
    assert p[0..4] == d[0..4] == [0x49, 0x4E, 0x44, 0x58];
  }

  /** Exactly these records are accepted: at least one whole sector, one array entry more than sectors, the array behind
      the first eight bytes and inside the record, and its first entry at the end of every sector. */
  lemma RecordIsAcceptedIff(d: seq<Byte>)
    ensures FixedRecord(d).1 <==>
      && |d| >= 512 && |d| % 512 == 0 && U16At(d, 6) == |d| / 512 + 1
      && 8 <= U16At(d, 4) && U16At(d, 4) + 2 * U16At(d, 6) <= |d|
      && forall s: nat | s < |d| / 512 :: Carries(d, s, U16At(d, U16At(d, 4)))
  {
    if RecordHeaderOk(d) {
      OnlyTrailersChange(d, U16At(d, 4), U16At(d, U16At(d, 4)), 0, U16At(d, 6) - 1);
    }
  }

  /** And exactly these index blocks. */
  lemma IndexBlockIsAcceptedIff(d: seq<Byte>)
    ensures FixedIndexBlock(d).Some? <==>
      && |d| >= 512 && d[0] == 'I' as int && d[1] == 'N' as int && d[2] == 'D' as int && d[3] == 'X' as int
      && 2 <= U16At(d, 6) && 8 <= U16At(d, 4) && U16At(d, 4) + 2 * U16At(d, 6) <= |d|
      && forall s: nat | s < U16At(d, 6) - 1 :: Carries(d, s, U16At(d, U16At(d, 4)))
  {
    if |d| >= 4 {
      assert d[0..4] == [d[0], d[1], d[2], d[3]];
    }
    if IndexHeaderOk(d) {
      var sequence := U16At(d, U16At(d, 4));
      OnlyTrailersChange(d, U16At(d, 4), sequence, 0, U16At(d, 6) - 1);
      if forall s: nat | s < U16At(d, 6) - 1 :: Carries(d, s, sequence) {
        assert Carries(d, 0, sequence);
      }
    }
  }

  /** A block with fewer sectors than its array counts is rejected. */
  lemma ShortIndexBlockIsRejected(d: seq<Byte>)
    requires IndexHeaderOk(d) && 512 * (U16At(d, 6) - 1) > |d|
    ensures FixedIndexBlock(d) == None
  {
    OnlyTrailersChange(d, U16At(d, 4), U16At(d, U16At(d, 4)), 0, U16At(d, 6) - 1);
    assert !Carries(d, U16At(d, 6) - 2, U16At(d, U16At(d, 4)));
  }

  lemma ByteRestored(d: seq<Byte>, p: seq<Byte>, r: seq<Byte>, usa: nat, sequence: U16, n: nat, j: nat)
    requires usa + 2 + 2 * n <= |d| && 512 * n <= |d| && IsProtected(p, d, usa, sequence, n)
    requires |r| == |p| && j < |d| && !(usa <= j < usa + 2 + 2 * n)
    requires forall s: nat | s < n :: Restored(r, p, usa, s)
    requires !InTrailer(j, n) ==> SameByte(r, p, j)
    ensures SameByte(r, d, j)
  {
    if InTrailer(j, n) {
      var s: nat :| s < n && IsTrailerOf(j, s);
      assert Restored(r, p, usa, s) && Restored(d, p, usa, s);
    }
  }

  lemma HeaderIsClear(n: nat)
    ensures forall j | 0 <= j < 8 :: !InTrailer(j, n)
  {}

  /** The protection of d. */
  function Protect(d: seq<Byte>, usa: nat, sequence: U16, n: nat): (p: seq<Byte>)
    requires usa + 2 + 2 * n <= |d| && 512 * n <= |d|
    ensures |p| == |d|
  {
    seq<Byte>(|d|, j requires 0 <= j < |d| => ProtectedByte(d, usa, sequence, n, j))
  }

  function ProtectedByte(d: seq<Byte>, usa: nat, sequence: U16, n: nat, j: nat): Byte
    requires usa + 2 + 2 * n <= |d| && 512 * n <= |d| && j < |d|
  {
    if usa <= j < usa + 2 then Stamp(sequence, j == usa)
    else if usa + 2 <= j < usa + 2 + 2 * n then TrailerByte(d, n, j - usa - 2)
    else if j < 512 * n && j % 512 >= 510 then Stamp(sequence, j % 512 == 510)
    else d[j]
  }

  /** Byte k of all trailers, one behind the other. */
  function TrailerByte(d: seq<Byte>, n: nat, k: nat): Byte
    requires 512 * n <= |d| && k < 2 * n
  {
    d[Trailer(k / 2) + k % 2]
  }

  function Stamp(sequence: U16, low: bool): Byte {
    if low then sequence % 0x100 else sequence / 0x100
  }

  lemma TrailerIsStamped(d: seq<Byte>, usa: nat, sequence: U16, n: nat, s: nat)
    requires usa + 2 + 2 * n <= |d| && 512 * n <= |d| && ArrayClear(usa, n) && s < n
    ensures Carries(Protect(d, usa, sequence, n), s, sequence)
  {
    TrailerRemainder(s);
    assert ClearOf(usa, n, s);
  }

  lemma SlotKeepsTrailer(d: seq<Byte>, usa: nat, sequence: U16, n: nat, s: nat)
    requires usa + 2 + 2 * n <= |d| && 512 * n <= |d| && s < n
    ensures Restored(d, Protect(d, usa, sequence, n), usa, s)
  {
    assert Slot(usa, s) - usa - 2 == 2 * s;
  }

  lemma OtherBytesStay(d: seq<Byte>, usa: nat, sequence: U16, n: nat, j: nat)
    requires usa + 2 + 2 * n <= |d| && 512 * n <= |d| && j < |d|
    requires !InTrailer(j, n) && !(usa <= j < usa + 2 + 2 * n)
    ensures SameByte(Protect(d, usa, sequence, n), d, j)
  {
    HighOffsetsAreTrailers(j, n);
  }

  lemma HighOffsetsAreTrailers(j: nat, n: nat)
    ensures j < 512 * n && j % 512 >= 510 ==> InTrailer(j, n)
  {
    if j < 512 * n && j % 512 >= 510 {
      assert IsTrailerOf(j, j / 512);
    }
  }

  /** Every record whose array is clear of its trailers has a protection, so the inversion is not vacuous. */
  lemma ProtectionExists(d: seq<Byte>, usa: nat, sequence: U16, n: nat)
    requires usa + 2 + 2 * n <= |d| && 512 * n <= |d| && ArrayClear(usa, n)
    ensures IsProtected(Protect(d, usa, sequence, n), d, usa, sequence, n)
  {
    forall s: nat | s < n
      ensures Carries(Protect(d, usa, sequence, n), s, sequence)
      ensures Restored(d, Protect(d, usa, sequence, n), usa, s)
    {
      TrailerIsStamped(d, usa, sequence, n, s);
      SlotKeepsTrailer(d, usa, sequence, n, s);
    }
    forall j | 0 <= j < |d| && !InTrailer(j, n) && !(usa <= j < usa + 2 + 2 * n)
      ensures SameByte(Protect(d, usa, sequence, n), d, j)
    {
      OtherBytesStay(d, usa, sequence, n, j);
    }
  }

  lemma TrailerRemainder(s: nat)
    ensures Trailer(s) % 512 == 510 && (Trailer(s) + 1) % 512 == 511
  {}
}
