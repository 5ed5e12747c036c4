/** NTFS runlists: variable-width records, delta-coded signed cluster numbers, sparse runs. */
module NtfsDataRun {
  import opened Machine
  import opened Sequences

  /** One run of clusters; `lcn == None` is a sparse run. */
  datatype DataRun = DataRun(lcn: Option<I64>, clusterCount: U64)

  // ----- what a runlist means -----

  /** The two's-complement value of a little-endian byte string. */
  function Signed(bs: seq<Byte>): int {
    var v := LittleEndian(bs);
    if bs != [] && v >= Pow2(8 * |bs| - 1) then v - Pow2(8 * |bs|) else v
  }

  lemma SignedRange(bs: seq<Byte>)
    requires 0 < |bs| <= 8
    ensures -(Pow2(8 * |bs| - 1) as int) <= Signed(bs) < Pow2(8 * |bs| - 1)
    ensures Pow2(8 * |bs|) == 2 * Pow2(8 * |bs| - 1)
    ensures Pow2(8 * |bs| - 1) <= 0x8000_0000_0000_0000
  {
    LittleEndianBound(bs);
    Pow2Monotone(8 * |bs| - 1, 63);
    Pow2Of64();
  }

  function CountOf(bs: seq<Byte>): U64
    requires |bs| <= 8
  {
    LittleEndianBound(bs);
    Pow2Monotone(8 * |bs|, 64);
    Pow2Of64();
    LittleEndian(bs)
  }

  /** The length of the record whose header byte is `header`. */
  function RecordSize(header: Byte): nat {
    1 + header % 16 + header / 16
  }

  /** The first record of a runlist, given the cluster number the delta is relative to. */
  function DecodeRecord(data: seq<Byte>, base: I64): Result<DataRun>
    requires data != [] && data[0] != 0
  {
    var countSize := data[0] % 16;
    var lcnSize := data[0] / 16;
    if countSize == 0 || RecordSize(data[0]) > |data| then Err(InvalidFormat)
    else if countSize > 8 then Err(Panic)
    else
      var count := CountOf(data[1..1 + countSize]);
      if count == 0 then Err(InvalidFormat)
      else if lcnSize == 0 then Ok(DataRun(None, count))
      else if lcnSize > 8 then Err(InvalidFormat)
      else
        var lcn := base + Signed(data[1 + countSize..1 + countSize + lcnSize]);
        if 0 <= lcn < 0x8000_0000_0000_0000 then Ok(DataRun(Some(lcn), count)) else Err(InvalidFormat)
  }

  /** Sparse runs do not move the base of the next delta. */
  function NextBase(base: I64, run: DataRun): I64 {
    if run.lcn.Some? then run.lcn.value else base
  }

  /** The runs of a zero-terminated runlist. */
  function Decode(data: seq<Byte>, base: I64): Result<seq<DataRun>> {
    if data == [] then Err(InvalidFormat)
    else if data[0] == 0 then Ok([])
    else
      var run :- DecodeRecord(data, base);
      var rest :- Decode(data[RecordSize(data[0])..], NextBase(base, run));
      Ok([run] + rest)
  }

  // ----- the parser -----

  /** Or-ing shifted bytes together accumulates the little-endian value. */
  method AccumulateBytes(data: seq<Byte>, offset: nat, size: nat) returns (bits: U64)
    requires size <= 8 && offset + size <= |data|
    ensures bits == LittleEndian(data[offset..offset + size]) < Pow2(8 * size)
  {
    bits := 0;
    for i := 0 to size
      invariant bits == LittleEndian(data[offset..offset + i]) < Pow2(8 * i)
    {
      var b := data[offset + i];
      assert data[offset..offset + i + 1] == data[offset..offset + i] + [b];
      LittleEndianAppend(data[offset..offset + i], b);
      LittleEndianBound(data[offset..offset + i + 1]);
      ByteLands(bits, b, i);
      bits := BitOr(bits, ShiftLeft(b, 8 * i));
    }
  }

  lemma ByteLands(bits: U64, b: Byte, i: nat)
    requires i < 8 && bits < Pow2(8 * i)
    ensures BitOr(bits, ShiftLeft(b, 8 * i)) == bits + b * Pow2(8 * i) < U64_LIMIT
  {
    var p := Pow2(8 * i);
    var shifted := b * p;
    assert shifted + p <= U64_LIMIT by {
      MulMonotone(b, 255, p);
      assert 256 * p == Pow2(8 + 8 * i) by {
        Pow2Add(8, 8 * i);
        assert Pow2(8) == 256;
      }
      Pow2Monotone(8 + 8 * i, 64);
      Pow2Of64();
    }
    assert ShiftLeft(b, 8 * i) == shifted by {
      Remainder(0, shifted);
    }
    BitOrDisjoint(bits, b, 8 * i);
  }

  /** Sign extension by or-ing a mask of ones equals the two's-complement value at every width. */
  method SignExtend(bits: U64, lcnBits: nat) returns (delta: I64)
    requires 0 < lcnBits <= 64 && bits < Pow2(lcnBits)
    ensures delta == if bits >= Pow2(lcnBits - 1) then bits - Pow2(lcnBits) else bits
  {
    if lcnBits == 64 {
      Pow2Of64();
      return AsI64(bits);
    }
    OneShifted(lcnBits - 1);
    TopBit(bits, lcnBits - 1);
    var signBit := ShiftLeft(1, lcnBits - 1);
    if BitAnd(bits, signBit) != 0 {
      MaskExtends(bits, lcnBits);
      MaskedIsSigned(bits, lcnBits);
      var extensionMask := ShiftLeft(U64_MAX, lcnBits);
      delta := AsI64(BitOr(bits, extensionMask));
    } else {
      delta := AsI64(bits);
    }
  }

  lemma OneShifted(k: nat)
    requires k < 63
    ensures ShiftLeft(1, k) == Pow2(k) <= 0x4000_0000_0000_0000
  {
    Pow2Monotone(k, 62);
    Pow2Of64();
    Remainder(0, Pow2(k));
  }

  lemma MaskedIsSigned(bits: U64, k: nat)
    requires 0 < k < 64 && Pow2(k - 1) <= bits < Pow2(k)
    ensures var extended := bits + U64_LIMIT - Pow2(k);
      0 <= extended < U64_LIMIT && AsI64(extended) == bits - Pow2(k)
  {
    Pow2Monotone(k, 63);
    Pow2Of64();
  }

  lemma ShiftedOnes(p: nat)
    requires 1 <= p <= U64_LIMIT
    ensures (U64_MAX * p) % U64_LIMIT == U64_LIMIT - p || p == U64_LIMIT
  {
    assert U64_MAX * p == (p - 1) * U64_LIMIT + (U64_LIMIT - p);
    if p < U64_LIMIT {
      Remainder(p - 1, U64_LIMIT - p);
    }
  }

  lemma MaskExtends(bits: U64, k: nat)
    requires k < 64 && bits < Pow2(k)
    ensures BitOr(bits, ShiftLeft(U64_MAX, k)) == bits + U64_LIMIT - Pow2(k) < U64_LIMIT
  {
    var p, q := Pow2(k), Pow2(64 - k);
    Pow2Strict(k);
    ShiftedOnes(p);
    HighOnes(k);
    BitOrDisjoint(bits, q - 1, k);
  }

  lemma HighOnes(k: nat)
    requires k < 64
    ensures (Pow2(64 - k) - 1) * Pow2(k) == U64_LIMIT - Pow2(k)
  {
    var p, q := Pow2(k), Pow2(64 - k);
    Pow2Add(64 - k, k);
    Pow2Of64();
    OneFewer(q, p);
  }

  lemma OneFewer(q: nat, p: nat)
    requires q >= 1
    ensures (q - 1) * p == q * p - p
  {}

  lemma Pow2Strict(k: nat)
    requires k < 64
    ensures Pow2(k) < U64_LIMIT
  {
    Pow2Monotone(k, 63);
    Pow2Of64();
  }

  lemma Remainder(a: nat, r: nat)
    requires r < U64_LIMIT
    ensures (a * U64_LIMIT + r) % U64_LIMIT == r
  {}

  /** The signed delta stored in `size` bytes. */
  method ReadDelta(data: seq<Byte>, offset: nat, size: nat) returns (delta: I64)
    requires 0 < size <= 8 && offset + size <= |data|
    ensures delta == Signed(data[offset..offset + size])
  {
    var lcnDeltaBits := AccumulateBytes(data, offset, size);
    delta := SignExtend(lcnDeltaBits, 8 * size);
  }

  lemma RecordSlices(data: seq<Byte>, offset: nat, countSize: nat, lcnSize: nat)
    requires 0 < offset && offset + countSize + lcnSize <= |data|
    ensures var record := data[offset - 1..];
      && record[1..1 + countSize] == data[offset..offset + countSize]
      && record[1 + countSize..1 + countSize + lcnSize] == data[offset + countSize..offset + countSize + lcnSize]
      && record[1 + countSize + lcnSize..] == data[offset + countSize + lcnSize..]
  {}

  lemma DecodeStep(data: seq<Byte>, base: I64, run: DataRun, done: seq<DataRun>)
    requires data != [] && data[0] != 0 && DecodeRecord(data, base) == Ok(run)
    ensures Prepend(done, Decode(data, base))
         == Prepend(done + [run], Decode(data[RecordSize(data[0])..], NextBase(base, run)))
  {
    PrependTwice(done, [run], Decode(data[RecordSize(data[0])..], NextBase(base, run)));
  }

  /** The record at `offset` and the offset behind it. */
  method ParseRecord(data: seq<Byte>, offset: nat, previousLcn: I64) returns (r: Result<DataRun>, next: nat)
    requires offset < |data| && data[offset] != 0
    ensures r == DecodeRecord(data[offset..], previousLcn)
    ensures r.Ok? ==> next == offset + RecordSize(data[offset]) <= |data|
  {
    next := offset + 1;
    var lcnSize := data[offset] / 16;
    var clusterCountSize := data[offset] % 16;
    if clusterCountSize == 0 {
      return Err(InvalidFormat), next;
    }
    var required := clusterCountSize + lcnSize;
    if next + required > |data| {
      return Err(InvalidFormat), next;
    }
    RecordSlices(data, next, clusterCountSize, lcnSize);
    if clusterCountSize > 8 {
      // the ninth shift is by 64 bits
      return Err(Panic), next;
    }
    var clusterCount := AccumulateBytes(data, next, clusterCountSize);
    next := next + clusterCountSize;
    if clusterCount == 0 {
      return Err(InvalidFormat), next;
    }
    if lcnSize == 0 {
      return Ok(DataRun(None, clusterCount)), next;
    }
    if lcnSize * 8 > 64 {
      return Err(InvalidFormat), next;
    }
    var lcnDelta := ReadDelta(data, next, lcnSize);
    next := next + lcnSize;
    var lcn := previousLcn + lcnDelta;
    if !(-0x8000_0000_0000_0000 <= lcn < 0x8000_0000_0000_0000) {
      return Err(InvalidFormat), next;
    }
    if lcn < 0 {
      return Err(InvalidFormat), next;
    }
    r := Ok(DataRun(Some(lcn), clusterCount));
  }

  method Parse(data: seq<Byte>) returns (r: Result<seq<DataRun>>)
    ensures r == Decode(data, 0)
  {
    var runs: seq<DataRun> := [];
    var offset := 0;
    var previousLcn: I64 := 0;
    var terminated := false;
    assert data[offset..] == data;
    PrependNothing(Decode(data, 0));
    while offset < |data|
      invariant 0 <= offset <= |data| && !terminated
      invariant Decode(data, 0) == Prepend(runs, Decode(data[offset..], previousLcn))
    {
      if data[offset] == 0 {
        terminated := true;
        assert runs + [] == runs;
        break;
      }
      var run, next := ParseRecord(data, offset, previousLcn);
      if run.Err? {
        return Err(run.error);
      }
      DecodeStep(data[offset..], previousLcn, run.value, runs);
      assert data[offset..][RecordSize(data[offset])..] == data[next..];
      runs := runs + [run.value];
      if run.value.lcn.Some? {
        previousLcn := run.value.lcn.value;
      }
      offset := next;
    }
    if !terminated {
      return Err(InvalidFormat);
    }
    r := Ok(runs);
  }

  // ----- a reference encoder -----

  datatype Widths = Widths(count: nat, lcn: nat)

  /** The widths hold the run: 1 to 8 bytes each, the count unsigned, the delta signed; sparse runs store no delta. */
  ghost predicate Fits(run: DataRun, w: Widths, base: I64) {
    && 1 <= w.count <= 8 && 0 < run.clusterCount < Pow2(8 * w.count)
    && match run.lcn
       case None => w.lcn == 0
       case Some(lcn) =>
         && lcn >= 0 && 1 <= w.lcn <= 8
         && -(Pow2(8 * w.lcn - 1) as int) <= lcn - base < Pow2(8 * w.lcn - 1)
  }

  /** The cluster number of the last run that has one; 0 when none has. */
  ghost function LastCluster(runs: seq<DataRun>): I64 {
    if runs == [] then 0
    else if runs[|runs| - 1].lcn.Some? then runs[|runs| - 1].lcn.value
    else LastCluster(runs[..|runs| - 1])
  }

  /** Each delta, taken from the last physical run before its own, fits its width. */
  ghost predicate AllFit(runs: seq<DataRun>, ws: seq<Widths>) {
    |ws| == |runs| && forall i: nat | i < |runs| :: Fits(runs[i], ws[i], LastCluster(runs[..i]))
  }

  /** The bit pattern of a signed number in `width` bytes. */
  ghost function Unsigned(delta: int, width: nat): int {
    if delta < 0 then delta + Pow2(8 * width) else delta
  }

  lemma UnsignedOfSigned(bs: seq<Byte>)
    requires 0 < |bs| <= 8
    ensures Unsigned(Signed(bs), |bs|) == LittleEndian(bs)
  {
    LittleEndianBound(bs);
  }

  lemma UnsignedFits(delta: int, width: nat)
    requires 1 <= width <= 8 && -(Pow2(8 * width - 1) as int) <= delta < Pow2(8 * width - 1)
    ensures 0 <= Unsigned(delta, width) < Pow2(8 * width)
    ensures delta < 0 <==> Unsigned(delta, width) >= Pow2(8 * width - 1)
  {
    assert Pow2(8 * width) == 2 * Pow2(8 * width - 1);
  }

  ghost function StoredDelta(run: DataRun, w: Widths, base: I64): nat
    requires Fits(run, w, base)
  {
    if run.lcn.None? then 0
    else
      UnsignedFits(run.lcn.value - base, w.lcn);
      Unsigned(run.lcn.value - base, w.lcn)
  }

  ghost function EncodeRecord(run: DataRun, w: Widths, base: I64): seq<Byte>
    requires Fits(run, w, base)
  {
    [w.lcn * 16 + w.count] + ToLittleEndian(run.clusterCount, w.count)
      + ToLittleEndian(StoredDelta(run, w, base), w.lcn)
  }

  /** The records of the runs from i on. */
  ghost function EncodeFrom(runs: seq<DataRun>, ws: seq<Widths>, i: nat): seq<Byte>
    requires AllFit(runs, ws) && i <= |runs|
    decreases |runs| - i
  {
    if i == |runs| then [] else EncodeRecord(runs[i], ws[i], LastCluster(runs[..i])) + EncodeFrom(runs, ws, i + 1)
  }

  /** A runlist: record i stores the distance from the last physical run before run i, and a zero byte ends it. */
  ghost function Encode(runs: seq<DataRun>, ws: seq<Widths>): seq<Byte>
    requires AllFit(runs, ws)
  {
    EncodeFrom(runs, ws, 0) + [0]
  }

  lemma Nibbles(high: nat, low: nat)
    requires low < 16
    ensures (high * 16 + low) % 16 == low && (high * 16 + low) / 16 == high
  {}

  /** What the fields of a record have to hold for it to decode to the run. */
  ghost predicate Holds(counts: seq<Byte>, stored: seq<Byte>, run: DataRun, base: I64) {
    && 1 <= |counts| <= 8 && LittleEndian(counts) == run.clusterCount
    && if run.lcn.None? then stored == [] else 1 <= |stored| <= 8 && Signed(stored) == run.lcn.value - base
  }

  lemma FieldsDecode(counts: seq<Byte>, stored: seq<Byte>, run: DataRun, base: I64, tail: seq<Byte>)
    requires Holds(counts, stored, run, base) && run.clusterCount > 0 && (run.lcn.Some? ==> run.lcn.value >= 0)
    ensures var data := [|stored| * 16 + |counts|] + counts + stored + tail;
      && data[0] != 0 && RecordSize(data[0]) == 1 + |counts| + |stored| && DecodeRecord(data, base) == Ok(run)
  {
    var data := [|stored| * 16 + |counts|] + counts + stored + tail;
    Nibbles(|stored|, |counts|);
    assert data[1..1 + |counts|] == counts;
    assert data[1 + |counts|..1 + |counts| + |stored|] == stored;
  }

  lemma EncodedFieldsHold(run: DataRun, w: Widths, base: I64)
    requires Fits(run, w, base)
    ensures Holds(ToLittleEndian(run.clusterCount, w.count), ToLittleEndian(StoredDelta(run, w, base), w.lcn), run,
      base)
  {
    LittleEndianRoundTrip(run.clusterCount, w.count);
    if run.lcn.Some? {
      UnsignedFits(run.lcn.value - base, w.lcn);
      LittleEndianRoundTrip(StoredDelta(run, w, base), w.lcn);
    }
  }

  lemma DecodeEncodedRecord(run: DataRun, w: Widths, base: I64, tail: seq<Byte>)
    requires Fits(run, w, base)
    ensures var data := EncodeRecord(run, w, base) + tail;
      && data[0] != 0 && RecordSize(data[0]) == |EncodeRecord(run, w, base)|
      && DecodeRecord(data, base) == Ok(run)
  {
    EncodedFieldsHold(run, w, base);
    FieldsDecode(ToLittleEndian(run.clusterCount, w.count), ToLittleEndian(StoredDelta(run, w, base), w.lcn), run,
      base, tail);
  }

  /** One decoded record in front of the rest. */
  lemma DecodeFirst(data: seq<Byte>, base: I64, run: DataRun, rest: seq<Byte>)
    requires data != [] && data[0] != 0 && DecodeRecord(data, base) == Ok(run) && data[RecordSize(data[0])..] == rest
    ensures Decode(data, base) == Prepend([run], Decode(rest, NextBase(base, run)))
  {}

  lemma DecodeFirstEncoded(run: DataRun, w: Widths, base: I64, rest: seq<Byte>)
    requires Fits(run, w, base)
    ensures Decode(EncodeRecord(run, w, base) + rest, base) == Prepend([run], Decode(rest, NextBase(base, run)))
  {
    DecodeEncodedRecord(run, w, base, rest);
    DropFront(EncodeRecord(run, w, base), rest);
    DecodeFirst(EncodeRecord(run, w, base) + rest, base, run, rest);
  }

  /** Decoding the record gives the run and goes on from `next`, whatever follows. */
  ghost predicate IsRecord(record: seq<Byte>, base: I64, run: DataRun, next: I64) {
    forall rest: seq<Byte> :: Decode(record + rest, base) == Prepend([run], Decode(rest, next))
  }

  lemma RecordBehaves(record: seq<Byte>, base: I64, run: DataRun, next: I64, rest: seq<Byte>)
    requires IsRecord(record, base, run, next)
    ensures Decode(record + rest, base) == Prepend([run], Decode(rest, next))
  {}

  lemma DropFront<T>(a: seq<T>, b: seq<T>)
    ensures (a + b)[|a|..] == b
  {}

  lemma BaseIsLastCluster(runs: seq<DataRun>, i: nat)
    requires i < |runs|
    ensures LastCluster(runs[..i + 1]) == NextBase(LastCluster(runs[..i]), runs[i])
  {
    assert runs[..i + 1][..i] == runs[..i];
  }

  lemma RecordInRunlist(runs: seq<DataRun>, ws: seq<Widths>, i: nat)
    requires AllFit(runs, ws) && i < |runs|
    ensures IsRecord(EncodeRecord(runs[i], ws[i], LastCluster(runs[..i])), LastCluster(runs[..i]), runs[i],
                     LastCluster(runs[..i + 1]))
  {
    var base := LastCluster(runs[..i]);
    BaseIsLastCluster(runs, i);
    forall rest: seq<Byte>
      ensures Decode(EncodeRecord(runs[i], ws[i], base) + rest, base)
           == Prepend([runs[i]], Decode(rest, LastCluster(runs[..i + 1])))
    {
      DecodeFirstEncoded(runs[i], ws[i], base, rest);
    }
  }

  lemma {:induction false} RoundTripFrom(runs: seq<DataRun>, ws: seq<Widths>, i: nat, tail: seq<Byte>)
    requires AllFit(runs, ws) && i <= |runs|
    ensures Decode(EncodeFrom(runs, ws, i) + [0] + tail, LastCluster(runs[..i])) == Ok(runs[i..])
    decreases |runs| - i
  {
    if i == |runs| {
      assert EncodeFrom(runs, ws, i) + [0] + tail == [0] + tail;
      assert runs[i..] == [];
    } else {
      RecordInRunlist(runs, ws, i);
      RoundTripFrom(runs, ws, i + 1, tail);
      RecordInFrontDecodes(EncodeRecord(runs[i], ws[i], LastCluster(runs[..i])), EncodeFrom(runs, ws, i + 1), tail,
                           runs, i, LastCluster(runs[..i]), LastCluster(runs[..i + 1]));
    }
  }

  lemma RecordInFrontDecodes(record: seq<Byte>, more: seq<Byte>, tail: seq<Byte>, runs: seq<DataRun>, i: nat,
                             base: I64, next: I64)
    requires i < |runs| && IsRecord(record, base, runs[i], next) && Decode(more + [0] + tail, next) == Ok(runs[i + 1..])
    ensures Decode((record + more) + [0] + tail, base) == Ok(runs[i..])
  {
    RecordBehaves(record, base, runs[i], next, more + [0] + tail);
    ThreeMore(record, more, [0], tail);
    FirstOfRest(runs, i);
  }

  lemma ThreeMore<T>(a: seq<T>, b: seq<T>, c: seq<T>, d: seq<T>)
    ensures (a + b) + c + d == a + (b + c + d)
  {}

  lemma FirstOfRest<T>(s: seq<T>, i: nat)
    requires i < |s|
    ensures s[i..] == [s[i]] + s[i + 1..]
  {}

  /** Decoding inverts encoding, whatever follows the terminator. */
  lemma RoundTrip(runs: seq<DataRun>, ws: seq<Widths>, tail: seq<Byte>)
    requires AllFit(runs, ws)
    ensures Decode(Encode(runs, ws) + tail, 0) == Ok(runs)
  {
    RoundTripFrom(runs, ws, 0, tail);
    assert runs[..0] == [] && runs[0..] == runs;
  }

  lemma {:induction false} EncodingIsUnique(bs: seq<Byte>)
    ensures ToLittleEndian(LittleEndian(bs), |bs|) == bs
  {
    if bs != [] {
      EncodingIsUnique(bs[1..]);
      LowByte(bs[0], LittleEndian(bs[1..]));
      assert bs == [bs[0]] + bs[1..];
    }
  }

  lemma LowByte(b: Byte, rest: nat)
    ensures (b + 256 * rest) % 256 == b && (b + 256 * rest) / 256 == rest
  {}

  ghost function StoredWidths(header: Byte): Widths {
    Widths(header % 16, header / 16)
  }

  lemma DecodedRecordFits(data: seq<Byte>, base: I64)
    requires data != [] && data[0] != 0 && DecodeRecord(data, base).Ok?
    ensures Fits(DecodeRecord(data, base).value, StoredWidths(data[0]), base)
  {
    var w := StoredWidths(data[0]);
    LittleEndianBound(data[1..1 + w.count]);
    if w.lcn > 0 {
      SignedRange(data[1 + w.count..1 + w.count + w.lcn]);
    }
  }

  lemma FieldsEncode(counts: seq<Byte>, stored: seq<Byte>, run: DataRun, base: I64)
    requires Holds(counts, stored, run, base) && Fits(run, Widths(|counts|, |stored|), base)
    ensures EncodeRecord(run, Widths(|counts|, |stored|), base) == [|stored| * 16 + |counts|] + counts + stored
  {
    EncodingIsUnique(counts);
    if run.lcn.Some? {
      UnsignedOfSigned(stored);
      EncodingIsUnique(stored);
    }
  }

  lemma DecodedFieldsHold(data: seq<Byte>, base: I64)
    requires data != [] && data[0] != 0 && DecodeRecord(data, base).Ok?
    ensures var w := StoredWidths(data[0]);
      Holds(data[1..1 + w.count], data[1 + w.count..1 + w.count + w.lcn], DecodeRecord(data, base).value, base)
  {}

  lemma EncodeDecodedRecord(data: seq<Byte>, base: I64)
    requires data != [] && data[0] != 0 && DecodeRecord(data, base).Ok?
    requires Fits(DecodeRecord(data, base).value, StoredWidths(data[0]), base)
    ensures EncodeRecord(DecodeRecord(data, base).value, StoredWidths(data[0]), base) == data[..RecordSize(data[0])]
  {
    var w := StoredWidths(data[0]);
    DecodedFieldsHold(data, base);
    HeldFieldsEncode(data, w, DecodeRecord(data, base).value, base);
  }

  lemma HeldFieldsEncode(data: seq<Byte>, w: Widths, run: DataRun, base: I64)
    requires 1 + w.count + w.lcn <= |data| && data[0] == w.lcn * 16 + w.count && Fits(run, w, base)
    requires Holds(data[1..1 + w.count], data[1 + w.count..1 + w.count + w.lcn], run, base)
    ensures EncodeRecord(run, w, base) == data[..1 + w.count + w.lcn]
  {
    FieldsEncode(data[1..1 + w.count], data[1 + w.count..1 + w.count + w.lcn], run, base);
    ThreePieces(data, 1 + w.count, 1 + w.count + w.lcn);
  }

  lemma ThreePieces(data: seq<Byte>, middle: nat, end: nat)
    requires 1 <= middle <= end <= |data|
    ensures data[..end] == [data[0]] + data[1..middle] + data[middle..end]
  {}

  /** Once `done` is decoded, what is accepted behind it is the encoding of the runs returned. */
  lemma {:induction false} AcceptsOnlyRecords(data: seq<Byte>, done: seq<DataRun>, wsDone: seq<Widths>)
    returns (ws: seq<Widths>, tail: seq<Byte>)
    requires AllFit(done, wsDone) && Decode(data, LastCluster(done)).Ok?
    ensures EncodesRest(data, done, wsDone, Decode(data, LastCluster(done)).value, ws, tail)
    decreases |data|
  {
    var base := LastCluster(done);
    if data[0] == 0 {
      ws, tail := [], data[1..];
      assert done + [] == done && wsDone + [] == wsDone;
    } else {
      var run, w, size := DecodeRecord(data, base).value, StoredWidths(data[0]), RecordSize(data[0]);
      DecodedRecordFits(data, base);
      EncodeDecodedRecord(data, base);
      OneMoreFits(done, wsDone, run, w);
      DecodeFirst(data, base, run, data[size..]);
      var ws', tail' := AcceptsOnlyRecords(data[size..], done + [run], wsDone + [w]);
      ws, tail := [w] + ws', tail';
      RecordInFront(data, size, done, wsDone, run, w, Decode(data[size..], NextBase(base, run)).value, ws', tail);
    }
  }

  /** The data spells out the runs behind `done`. */
  ghost predicate EncodesRest(data: seq<Byte>, done: seq<DataRun>, wsDone: seq<Widths>, runs: seq<DataRun>,
                              ws: seq<Widths>, tail: seq<Byte>) {
    AllFit(done + runs, wsDone + ws) && data == EncodeFrom(done + runs, wsDone + ws, |done|) + [0] + tail
  }

  lemma RecordInFront(data: seq<Byte>, size: nat, done: seq<DataRun>, wsDone: seq<Widths>, run: DataRun, w: Widths,
                      runs: seq<DataRun>, ws: seq<Widths>, tail: seq<Byte>)
    requires size <= |data| && |done| == |wsDone|
    requires Fits(run, w, LastCluster(done)) && EncodeRecord(run, w, LastCluster(done)) == data[..size]
    requires EncodesRest(data[size..], done + [run], wsDone + [w], runs, ws, tail)
    ensures EncodesRest(data, done, wsDone, [run] + runs, [w] + ws, tail)
  {
    Associates(done, [run], runs);
    Associates(wsDone, [w], ws);
    TakeFront(done, [run] + runs);
    RecordsFrom(data, size, done + ([run] + runs), wsDone + ([w] + ws), |done|, tail);
  }

  lemma TakeFront<T>(a: seq<T>, b: seq<T>)
    ensures (a + b)[..|a|] == a
  {}

  lemma RecordsFrom(data: seq<Byte>, size: nat, runs: seq<DataRun>, ws: seq<Widths>, i: nat, tail: seq<Byte>)
    requires size <= |data| && AllFit(runs, ws) && i < |runs|
    requires data[..size] == EncodeRecord(runs[i], ws[i], LastCluster(runs[..i]))
    requires data[size..] == EncodeFrom(runs, ws, i + 1) + [0] + tail
    ensures data == EncodeFrom(runs, ws, i) + [0] + tail
  {
    assert data == data[..size] + data[size..];
  }

  lemma OneMoreFits(done: seq<DataRun>, ws: seq<Widths>, run: DataRun, w: Widths)
    requires AllFit(done, ws) && Fits(run, w, LastCluster(done))
    ensures AllFit(done + [run], ws + [w])
    ensures LastCluster(done + [run]) == NextBase(LastCluster(done), run)
  {
    var runs := done + [run];
    assert runs[..|done|] == done;
    forall i: nat | i < |runs| ensures Fits(runs[i], (ws + [w])[i], LastCluster(runs[..i])) {
      if i < |done| {
        assert runs[..i] == done[..i];
      }
    }
  }

  /** Every accepted runlist is the encoding of the runs returned: the parser accepts nothing else. */
  lemma AcceptsOnlyEncodings(data: seq<Byte>) returns (ws: seq<Widths>, tail: seq<Byte>)
    requires Decode(data, 0).Ok?
    ensures AllFit(Decode(data, 0).value, ws) && data == Encode(Decode(data, 0).value, ws) + tail
  {
    ws, tail := AcceptsOnlyRecords(data, [], []);
    assert [] + Decode(data, 0).value == Decode(data, 0).value && [] + ws == ws;
  }

  // ----- holes -----

  /** The first record of a runlist. */
  function FirstRecord(data: seq<Byte>): seq<Byte> {
    if data == [] || RecordSize(data[0]) > |data| then [] else data[..RecordSize(data[0])]
  }

  /** A runlist cut in two: the first k records, and what follows. */
  function Cut(data: seq<Byte>, k: nat): (seq<Byte>, seq<Byte>) {
    if k == 0 then ([], data)
    else
      var (front, rest) := Cut(data, k - 1);
      (front + FirstRecord(rest), rest[|FirstRecord(rest)|..])
  }

  /** The record of a hole stores a count and no cluster number. */
  function HoleRecord(count: U64, width: nat): seq<Byte>
    requires 1 <= width <= 8
  {
    [width] + ToLittleEndian(count, width)
  }

  /** An accepted runlist starts with a record, which decodes alike whatever follows it. */
  lemma FirstDecodes(data: seq<Byte>, base: I64, runs: seq<DataRun>, more: seq<Byte>)
    requires Decode(data, base) == Ok(runs) && runs != []
    ensures Decode(FirstRecord(data) + more, base) == Prepend([runs[0]], Decode(more, NextBase(base, runs[0])))
    ensures data == FirstRecord(data) + data[|FirstRecord(data)|..]
    ensures Decode(data[|FirstRecord(data)|..], NextBase(base, runs[0])) == Ok(runs[1..])
  {
    ChangedBehindFirst(data, base, runs[0], more);
    RestOfFirst(data, base, runs);
  }

  lemma RestOfFirst(data: seq<Byte>, base: I64, runs: seq<DataRun>)
    requires Decode(data, base) == Ok(runs) && runs != []
    ensures data != [] && RecordSize(data[0]) <= |data|
    ensures Decode(data[RecordSize(data[0])..], NextBase(base, runs[0])) == Ok(runs[1..])
  {
    var run := DecodeRecord(data, base).value;
    FirstAndRest(run, Decode(data[RecordSize(data[0])..], NextBase(base, run)).value);
  }

  lemma FirstAndRest<T>(x: T, rest: seq<T>)
    ensures ([x] + rest)[..1] == [x] && ([x] + rest)[1..] == rest
  {}

  lemma LastClusterStep(before: seq<DataRun>, run: DataRun)
    ensures LastCluster(before + [run]) == NextBase(LastCluster(before), run)
  {
    assert (before + [run])[..|before|] == before;
  }

  lemma MoveFirst<T>(before: seq<T>, after: seq<T>)
    requires after != []
    ensures (before + [after[0]]) + after[1..] == before + after
  {}

  /** The rest of a cut runlist decodes to the rest of the runs, from the last physical run before it. */
  lemma {:induction false} CutDecodes(data: seq<Byte>, k: nat) returns (before: seq<DataRun>, after: seq<DataRun>)
    requires Decode(data, 0).Ok? && k <= |Decode(data, 0).value|
    ensures Cut(data, k).0 + Cut(data, k).1 == data
    ensures before + after == Decode(data, 0).value && |before| == k
    ensures Decode(Cut(data, k).1, LastCluster(before)) == Ok(after)
    decreases k
  {
    if k == 0 {
      before, after := [], Decode(data, 0).value;
    } else {
      var b, a := CutDecodes(data, k - 1);
      var front, rest := Cut(data, k - 1).0, Cut(data, k - 1).1;
      FirstDecodes(rest, LastCluster(b), a, []);
      LastClusterStep(b, a[0]);
      MoveFirst(b, a);
      Associates(front, FirstRecord(rest), rest[|FirstRecord(rest)|..]);
      before, after := b + [a[0]], a[1..];
    }
  }

  /** The first k records decode to the first k runs, whatever follows them. */
  lemma {:induction false} FrontDecodes(data: seq<Byte>, before: seq<DataRun>, after: seq<DataRun>, more: seq<Byte>)
    requires Decode(data, 0) == Ok(before + after)
    ensures Decode(Cut(data, |before|).0 + more, 0) == Prepend(before, Decode(more, LastCluster(before)))
    decreases |before|
  {
    if before == [] {
      PrependNothing(Decode(more, 0));
      assert [] + more == more;
    } else {
      var b, a := CutDecodes(data, |before| - 1);
      SameCut(before, after, b, a);
      var front, rest := Cut(data, |b|).0, Cut(data, |b|).1;
      FirstDecodes(rest, LastCluster(b), a, more);
      FrontDecodes(data, b, a, FirstRecord(rest) + more);
      PrependTwice(b, [a[0]], Decode(more, LastCluster(before)));
      Associates(front, FirstRecord(rest), more);
      LastClusterStep(b, a[0]);
    }
  }

  lemma SameCut<T>(before: seq<T>, after: seq<T>, b: seq<T>, a: seq<T>)
    requires before != [] && b + a == before + after && |b| == |before| - 1
    ensures a != [] && before == b + [a[0]]
  {
    assert |a| == |after| + 1;
    assert (b + a)[..|b|] == b && (b + a)[|b|] == a[0];
    assert (before + after)[..|b|] == before[..|b|] && (before + after)[|b|] == before[|b|];
  }

  lemma HoleFirst(data: seq<Byte>, base: I64, count: U64, width: nat)
    requires 1 <= width <= 8 && 0 < count < Pow2(8 * width)
    ensures Decode(HoleRecord(count, width) + data, base) == Prepend([DataRun(None, count)], Decode(data, base))
  {
    DecodeFirstEncoded(DataRun(None, count), Widths(width, 0), base, data);
    assert EncodeRecord(DataRun(None, count), Widths(width, 0), base) == HoleRecord(count, width);
  }

  /** A hole put in front of record k leaves every cluster number as it was, those behind the hole included. */
  lemma HolesMoveNothing(data: seq<Byte>, k: nat, count: U64, width: nat)
    requires Decode(data, 0).Ok? && k <= |Decode(data, 0).value|
    requires 1 <= width <= 8 && 0 < count < Pow2(8 * width)
    ensures var runs, cut := Decode(data, 0).value, Cut(data, k);
      && cut.0 + cut.1 == data
      && Decode(cut.0 + (HoleRecord(count, width) + cut.1), 0)
         == Ok(runs[..k] + ([DataRun(None, count)] + runs[k..]))
  {
    var before, after := CutDecodes(data, k);
    HoleFirst(Cut(data, k).1, LastCluster(before), count, width);
    FrontDecodes(data, before, after, HoleRecord(count, width) + Cut(data, k).1);
    TakeFront(before, after);
    DropFront(before, after);
  }

  lemma ChangedBehindFirst(data: seq<Byte>, base: I64, run: DataRun, changed: seq<Byte>)
    requires data != [] && data[0] != 0 && RecordSize(data[0]) <= |data| && DecodeRecord(data, base) == Ok(run)
    ensures Decode(data[..RecordSize(data[0])] + changed, base)
         == Prepend([run], Decode(changed, NextBase(base, run)))
  {
    var record := data[..RecordSize(data[0])];
    DropFront(record, changed);
    RecordIsLocal(data, record + changed, base);
    DecodeFirst(record + changed, base, run, changed);
  }

  lemma RecordIsLocal(data: seq<Byte>, other: seq<Byte>, base: I64)
    requires data != [] && data[0] != 0 && RecordSize(data[0]) <= |data|
    requires data[..RecordSize(data[0])] <= other
    ensures other[0] == data[0] && DecodeRecord(other, base) == DecodeRecord(data, base)
  {
    var size := RecordSize(data[0]);
    var c, l := data[0] % 16, data[0] / 16;
    assert other[..size] == data[..size];
    assert other[0] == other[..size][0] && data[0] == data[..size][0];
    assert other[1..1 + c] == other[..size][1..1 + c] && data[1..1 + c] == data[..size][1..1 + c];
    assert other[1 + c..1 + c + l] == other[..size][1 + c..1 + c + l];
    assert data[1 + c..1 + c + l] == data[..size][1 + c..1 + c + l];
  }

  /** Decoded runs have non-negative cluster numbers and positive counts. */
  lemma {:induction false} DecodedRunsAreSane(data: seq<Byte>, base: I64)
    requires Decode(data, base).Ok?
    ensures forall run <- Decode(data, base).value :: run.clusterCount > 0 && (run.lcn.Some? ==> run.lcn.value >= 0)
    decreases |data|
  {
    if data[0] != 0 {
      var run := DecodeRecord(data, base).value;
      DecodedRunsAreSane(data[RecordSize(data[0])..], NextBase(base, run));
    }
  }
}
