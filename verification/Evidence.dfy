/** The evidence image, positioned reads, and reassembly of content from consecutive parts. */
module Evidence {
  import opened Machine

  type Image = s: seq<Byte> | |s| < U64_LIMIT witness []

  /** A positioned read copies exactly the requested bytes or fails; reading nothing always succeeds. */
  function ReadAt(img: Image, offset: U64, size: nat): (r: Result<seq<Byte>>)
    ensures r.Ok? ==> |r.value| == size
  {
    if size == 0 then Ok([])
    else if offset + size <= |img| then Ok(img[offset..offset + size])
    else Err(Io)
  }

  lemma ReadAtInside(img: Image, offset: U64, size: nat)
    requires offset + size <= |img|
    ensures ReadAt(img, offset, size) == Ok(img[offset..offset + size])
  {
    if size == 0 {
      assert img[offset..offset] == [];
    }
  }

  function Zeros(n: nat): (z: seq<Byte>)
    ensures |z| == n
  {
    seq(n, _ => 0)
  }

  function Flatten<T>(parts: seq<seq<T>>): seq<T> {
    if parts == [] then [] else parts[0] + Flatten(parts[1..])
  }

  lemma {:induction false} FlattenAppend<T>(a: seq<seq<T>>, b: seq<seq<T>>)
    ensures Flatten(a + b) == Flatten(a) + Flatten(b)
  {
    if a == [] {
      assert a + b == b;
    } else {
      assert (a + b)[1..] == a[1..] + b;
      FlattenAppend(a[1..], b);
    }
  }

  /** At most the first `limit` elements; no limit keeps everything. */
  function Clip(s: seq<Byte>, limit: Option<nat>): seq<Byte> {
    if limit.Some? && limit.value < |s| then s[..limit.value] else s
  }

  function Less(limit: Option<nat>, taken: nat): Option<nat>
    requires limit.Some? ==> taken <= limit.value
  {
    if limit.Some? then Some(limit.value - taken) else None
  }

  /** Reads parts in order until the limit is reached; a part that is reached but unreadable fails the whole. */
  function Gather(parts: seq<Result<seq<Byte>>>, limit: Option<nat>): Result<seq<Byte>> {
    if parts == [] || limit == Some(0) then Ok([])
    else if parts[0].Err? then parts[0]
    else
      var kept := Clip(parts[0].value, limit);
      Prepend(kept, Gather(parts[1..], Less(limit, |kept|)))
  }

  predicate AllOk<T>(parts: seq<Result<T>>) {
    forall i | 0 <= i < |parts| :: parts[i].Ok?
  }

  /** The bytes of the parts before the first unreadable one. */
  function ReadablePrefix(parts: seq<Result<seq<Byte>>>): seq<Byte> {
    if parts == [] || parts[0].Err? then [] else parts[0].value + ReadablePrefix(parts[1..])
  }

  function FirstError<T>(parts: seq<Result<T>>): Error
    requires !AllOk(parts)
  {
    if parts[0].Err? then parts[0].error else FirstError(parts[1..])
  }

  /** Gathering succeeds exactly when everything is readable or the readable prefix fills the limit; it
      then holds the clipped concatenation of that prefix. Otherwise it reports the first unreadable part. */
  lemma {:induction false} GatherMeaning(parts: seq<Result<seq<Byte>>>, limit: Option<nat>)
    ensures Gather(parts, limit) ==
      if AllOk(parts) || (limit.Some? && limit.value <= |ReadablePrefix(parts)|)
      then Ok(Clip(ReadablePrefix(parts), limit))
      else Err(FirstError(parts))
  {
    if parts != [] && limit != Some(0) && parts[0].Ok? {
      var first, rest := parts[0].value, ReadablePrefix(parts[1..]);
      var kept := Clip(first, limit);
      GatherMeaning(parts[1..], Less(limit, |kept|));
      assert AllOk(parts) <==> AllOk(parts[1..]);
      if limit.Some? && limit.value <= |first| {
        assert Clip(rest, Some(0)) == [];
        assert Clip(first + rest, limit) == kept + [];
      } else {
        assert Clip(first + rest, limit) == first + Clip(rest, Less(limit, |first|));
      }
    }
  }

  /** One turn of a loop that gathers parts. */
  lemma GatherStep(parts: seq<Result<seq<Byte>>>, i: nat, done: seq<Byte>, limit: Option<nat>)
    requires i < |parts| && limit != Some(0) && parts[i].Ok?
    ensures var kept := Clip(parts[i].value, limit);
      Prepend(done, Gather(parts[i..], limit)) == Prepend(done + kept, Gather(parts[i + 1..], Less(limit, |kept|)))
  {
    var kept := Clip(parts[i].value, limit);
    assert parts[i..][1..] == parts[i + 1..];
    PrependTwice(done, kept, Gather(parts[i + 1..], Less(limit, |kept|)));
  }

  // ----- comparing two ways to read the same parts -----

  /** Equal on success, and failing together. */
  ghost predicate SameContent(a: Result<seq<Byte>>, b: Result<seq<Byte>>) {
    if a.Ok? then b == a else b.Err?
  }

  /** All parts that a read of `size` bytes reaches are good. */
  predicate ReachedAll(good: seq<bool>, sizes: seq<nat>, size: nat)
    requires |good| == |sizes|
  {
    good == [] || size == 0 ||
    (good[0] && (sizes[0] < size ==> ReachedAll(good[1..], sizes[1..], size - sizes[0])))
  }

  /** If good parts read alike and bad ones are unreadable on the first route, then the first route agrees with the
      second when only good parts are reached, and fails when the second reads its way through a bad one. */
  lemma {:induction false} GatherAlike(first: seq<Result<seq<Byte>>>, second: seq<Result<seq<Byte>>>,
                                       good: seq<bool>, sizes: seq<nat>, size: nat)
    requires |first| == |second| == |good| == |sizes|
    requires forall i | 0 <= i < |good| :: good[i] ==> SameContent(first[i], second[i])
    requires forall i | 0 <= i < |good| :: !good[i] && second[i].Ok? ==> first[i].Err?
    requires forall i | 0 <= i < |good| :: second[i].Ok? ==> |second[i].value| == sizes[i]
    ensures ReachedAll(good, sizes, size) ==> SameContent(Gather(first, Some(size)), Gather(second, Some(size)))
    ensures !ReachedAll(good, sizes, size) && Gather(second, Some(size)).Ok? ==> Gather(first, Some(size)).Err?
  {
    if good != [] && size != 0 && second[0].Ok? && good[0] {
      var remaining := if sizes[0] < size then size - sizes[0] else 0;
      GatherAlike(first[1..], second[1..], good[1..], sizes[1..], remaining);
    }
  }

  /** If the first route cannot read more than the second, and reads the same sizes, it fails where the second fails. */
  lemma {:induction false} GatherFailsToo(first: seq<Result<seq<Byte>>>, second: seq<Result<seq<Byte>>>, size: nat)
    requires |first| == |second|
    requires forall i | 0 <= i < |first| && first[i].Ok? :: second[i].Ok? && |second[i].value| == |first[i].value|
    ensures Gather(second, Some(size)).Err? ==> Gather(first, Some(size)).Err?
  {
    if first != [] && size != 0 && first[0].Ok? {
      GatherFailsToo(first[1..], second[1..], size - |Clip(first[0].value, Some(size))|);
    }
  }

  // ----- gathering without a limit -----

  lemma {:induction false} GatherAppend(a: seq<Result<seq<Byte>>>, b: seq<Result<seq<Byte>>>)
    ensures Gather(a + b, None)
         == if Gather(a, None).Err? then Gather(a, None) else Prepend(Gather(a, None).value, Gather(b, None))
  {
    if a == [] {
      assert a + b == b;
      PrependNothing(Gather(b, None));
    } else if a[0].Ok? {
      assert (a + b)[1..] == a[1..] + b;
      GatherAppend(a[1..], b);
      if Gather(a[1..], None).Ok? {
        PrependTwice(a[0].value, Gather(a[1..], None).value, Gather(b, None));
      }
    }
  }

  lemma GatherAll(parts: seq<Result<seq<Byte>>>)
    ensures Gather(parts, None).Ok? <==> AllOk(parts)
    ensures AllOk(parts) ==> Gather(parts, None) == Ok(ReadablePrefix(parts))
  {
    GatherMeaning(parts, None);
  }

  function ReadRange(img: Image, from: nat, size: nat): Result<seq<Byte>> {
    if from + size <= |img| then Ok(img[from..from + size]) else Err(Io)
  }

  /** `count` ranges of `unit` bytes, one behind the other. */
  function UnitParts(img: Image, from: nat, unit: nat, count: nat): (parts: seq<Result<seq<Byte>>>)
    ensures |parts| == count
    decreases count
  {
    if count == 0 then [] else [ReadRange(img, from, unit)] + UnitParts(img, from + unit, unit, count - 1)
  }

  lemma OneLess(count: int, unit: int)
    ensures (count - 1) * unit == count * unit - unit
  {}

  /** Reading adjacent units one by one is reading one range. */
  lemma {:induction false} UnitsAreOneRange(img: Image, from: nat, unit: nat, count: nat, size: nat)
    requires count > 0 && size == count * unit
    ensures SameContent(ReadRange(img, from, size), Gather(UnitParts(img, from, unit, count), None))
    decreases count
  {
    var parts := UnitParts(img, from, unit, count);
    OneLess(count, unit);
    if count == 1 {
      assert parts[1..] == [];
      if parts[0].Ok? {
        assert parts[0].value + [] == parts[0].value;
      }
    } else {
      MulNonNegative(count - 1, unit);
      UnitsAreOneRange(img, from + unit, unit, count - 1, size - unit);
      RangeSplits(img, from, unit, size);
      assert parts[1..] == UnitParts(img, from + unit, unit, count - 1);
    }
  }

  lemma RangeSplits(img: Image, from: nat, unit: nat, size: nat)
    requires unit <= size
    ensures ReadRange(img, from, size).Ok? ==>
      && ReadRange(img, from, unit).Ok? && ReadRange(img, from + unit, size - unit).Ok?
      && ReadRange(img, from, size).value
         == ReadRange(img, from, unit).value + ReadRange(img, from + unit, size - unit).value
    ensures ReadRange(img, from, size).Err? ==> ReadRange(img, from + unit, size - unit).Err?
  {
    if from + size <= |img| {
      assert img[from..from + size] == img[from..from + unit] + img[from + unit..from + size];
    }
  }

  /** If each part reads what a group of smaller parts reads, the parts read what all the groups read. */
  lemma {:induction false} GroupsReadAlike(groups: seq<seq<Result<seq<Byte>>>>, parts: seq<Result<seq<Byte>>>)
    requires |groups| == |parts|
    requires forall i | 0 <= i < |parts| :: SameContent(Gather(groups[i], None), parts[i])
    ensures SameContent(Gather(Flatten(groups), None), Gather(parts, None))
  {
    if parts != [] {
      GroupsReadAlike(groups[1..], parts[1..]);
      GatherAppend(groups[0], Flatten(groups[1..]));
    }
  }

  lemma {:induction false} ReadablePrefixAppend(a: seq<Result<seq<Byte>>>, b: seq<Result<seq<Byte>>>)
    requires AllOk(a)
    ensures ReadablePrefix(a + b) == ReadablePrefix(a) + ReadablePrefix(b)
  {
    if a == [] {
      assert a + b == b;
    } else {
      assert (a + b)[1..] == a[1..] + b;
      ReadablePrefixAppend(a[1..], b);
    }
  }

  /** What the parts yield before failing is a prefix of what the groups yield before failing. */
  lemma {:induction false} GroupsReadFurther(groups: seq<seq<Result<seq<Byte>>>>, parts: seq<Result<seq<Byte>>>)
    requires |groups| == |parts|
    requires forall i | 0 <= i < |parts| :: SameContent(Gather(groups[i], None), parts[i])
    ensures ReadablePrefix(parts) <= ReadablePrefix(Flatten(groups))
  {
    if parts != [] && parts[0].Ok? {
      GroupsReadFurther(groups[1..], parts[1..]);
      GatherAll(groups[0]);
      ReadablePrefixAppend(groups[0], Flatten(groups[1..]));
    }
  }

  /** Byte r of part q of equally sized parts lies at q * unit + r. */
  lemma {:induction false} UnitBytes(parts: seq<Result<seq<Byte>>>, unit: nat, q: nat, r: nat, at: nat)
    requires r < unit && at == q * unit + r && at < |ReadablePrefix(parts)|
    requires forall i | 0 <= i < |parts| :: parts[i].Ok? ==> |parts[i].value| == unit
    ensures q < |parts| && parts[q].Ok? && ReadablePrefix(parts)[at] == parts[q].value[r]
    decreases q
  {
    if q > 0 {
      OneLess(q, unit);
      MulNonNegative(q - 1, unit);
      UnitBytes(parts[1..], unit, q - 1, r, at - unit);
    }
  }

  lemma {:induction false} UnitTotal(parts: seq<Result<seq<Byte>>>, unit: nat)
    requires forall i | 0 <= i < |parts| :: parts[i].Ok? ==> |parts[i].value| == unit
    ensures |ReadablePrefix(parts)| <= |parts| * unit
    ensures AllOk(parts) ==> |ReadablePrefix(parts)| == |parts| * unit
  {
    if parts != [] {
      UnitTotal(parts[1..], unit);
      OneLess(|parts|, unit);
      assert AllOk(parts) ==> AllOk(parts[1..]);
    }
  }

  lemma {:induction false} SamePrefixes(a: seq<Result<seq<Byte>>>, b: seq<Result<seq<Byte>>>)
    requires |a| == |b| && forall i | 0 <= i < |a| :: SameContent(a[i], b[i])
    ensures ReadablePrefix(a) == ReadablePrefix(b) && (AllOk(a) <==> AllOk(b))
  {
    if a != [] && a[0].Ok? {
      SamePrefixes(a[1..], b[1..]);
      assert AllOk(a) <==> AllOk(a[1..]);
      assert AllOk(b) <==> AllOk(b[1..]);
    }
  }

  /** An unreadable unit leaves at least one unit unread. */
  lemma {:induction false} UnreadableUnit(parts: seq<Result<seq<Byte>>>, unit: nat)
    requires !AllOk(parts) && forall i | 0 <= i < |parts| :: parts[i].Ok? ==> |parts[i].value| == unit
    ensures parts != [] && |ReadablePrefix(parts)| <= (|parts| - 1) * unit
  {
    if parts[0].Ok? {
      assert AllOk(parts[1..]) ==> AllOk(parts);
      UnreadableUnit(parts[1..], unit);
      OneLess(|parts| - 1, unit);
    } else {
      MulNonNegative(|parts| - 1, unit);
    }
  }

  // ----- reading extents only as far as needed -----

  /** A byte range of the image. */
  datatype Extent = Extent(offset: U64, size: nat)

  function ReadWhole(img: Image, extent: Result<Extent>): Result<seq<Byte>> {
    if extent.Ok? then ReadAt(img, extent.value.offset, extent.value.size) else Err(extent.error)
  }

  function WholeParts(img: Image, extents: seq<Result<Extent>>): (parts: seq<Result<seq<Byte>>>)
    ensures |parts| == |extents|
  {
    seq(|extents|, i requires 0 <= i < |extents| => ReadWhole(img, extents[i]))
  }

  /** Reads extents in order, the last one only as far as the limit requires. */
  function GatherExtents(img: Image, extents: seq<Result<Extent>>, limit: nat): Result<seq<Byte>> {
    if extents == [] || limit == 0 then Ok([])
    else if extents[0].Err? then Err(extents[0].error)
    else
      var n := Min(extents[0].value.size, limit);
      var data :- ReadAt(img, extents[0].value.offset, n);
      Prepend(data, GatherExtents(img, extents[1..], limit - n))
  }

  /** One turn of a loop that gathers extents. */
  lemma ExtentStep(img: Image, extents: seq<Result<Extent>>, i: nat, done: seq<Byte>, limit: nat, data: seq<Byte>)
    requires i < |extents| && limit > 0 && extents[i].Ok?
    requires ReadAt(img, extents[i].value.offset, Min(extents[i].value.size, limit)) == Ok(data)
    ensures |data| == Min(extents[i].value.size, limit)
    ensures Prepend(done, GatherExtents(img, extents[i..], limit))
         == Prepend(done + data, GatherExtents(img, extents[i + 1..], limit - |data|))
  {
    assert extents[i..][1..] == extents[i + 1..];
    PrependTwice(done, data, GatherExtents(img, extents[i + 1..], limit - |data|));
  }

  lemma ReadAtClips(img: Image, extent: Extent, n: nat)
    requires n <= extent.size && ReadAt(img, extent.offset, extent.size).Ok?
    ensures ReadAt(img, extent.offset, n) == Ok(ReadAt(img, extent.offset, extent.size).value[..n])
  {
    if n > 0 {
      var whole := img[extent.offset..extent.offset + extent.size];
      assert whole[..n] == img[extent.offset..extent.offset + n];
    }
  }

  /** The first extent that cannot be read as a whole is longer than what is still missing, and the missing part of it
      lies in the image. */
  predicate CutOff(img: Image, extents: seq<Result<Extent>>, limit: nat) {
    && extents != [] && limit > 0 && extents[0].Ok?
    && var e := extents[0].value;
    if ReadWhole(img, extents[0]).Ok? then e.size < limit && CutOff(img, extents[1..], limit - e.size)
    else limit < e.size && e.offset + limit <= |img|
  }

  /** Reading whole extents and clipping agrees with reading only what is needed unless an extent is cut off. */
  lemma {:induction false} PartialReadsAgree(img: Image, extents: seq<Result<Extent>>, limit: nat)
    ensures SameContent(Gather(WholeParts(img, extents), Some(limit)), GatherExtents(img, extents, limit))
       <==> !CutOff(img, extents, limit)
    ensures CutOff(img, extents, limit) ==> GatherExtents(img, extents, limit).Ok?
    decreases |extents|
  {
    if extents != [] && limit != 0 && extents[0].Ok? {
      var parts := WholeParts(img, extents);
      assert parts[1..] == WholeParts(img, extents[1..]);
      var n := Min(extents[0].value.size, limit);
      PartialReadsAgree(img, extents[1..], limit - n);
      if ReadWhole(img, extents[0]).Ok? {
        ReadAtClips(img, extents[0].value, n);
        var kept := Clip(parts[0].value, Some(limit));
        assert kept == parts[0].value[..n];
        PrependCancels(kept, Gather(parts[1..], Some(limit - n)), GatherExtents(img, extents[1..], limit - n));
      }
    }
  }

  lemma PrependCancels(kept: seq<Byte>, a: Result<seq<Byte>>, b: Result<seq<Byte>>)
    ensures SameContent(Prepend(kept, a), Prepend(kept, b)) <==> SameContent(a, b)
  {
    if a.Ok? && b.Ok? && kept + a.value == kept + b.value {
      assert a.value == (kept + a.value)[|kept|..] == b.value;
    }
  }

  /** In particular they agree wherever reading whole extents succeeds. */
  lemma WholeReadsSuffice(img: Image, extents: seq<Result<Extent>>, limit: nat)
    requires Gather(WholeParts(img, extents), Some(limit)).Ok?
    ensures GatherExtents(img, extents, limit) == Gather(WholeParts(img, extents), Some(limit))
  {
    PartialReadsAgree(img, extents, limit);
    if CutOff(img, extents, limit) {
      CutOffFails(img, extents, limit);
    }
  }

  lemma {:induction false} CutOffFails(img: Image, extents: seq<Result<Extent>>, limit: nat)
    requires CutOff(img, extents, limit)
    ensures Gather(WholeParts(img, extents), Some(limit)).Err?
    decreases |extents|
  {
    var parts := WholeParts(img, extents);
    if parts[0].Ok? {
      assert parts[1..] == WholeParts(img, extents[1..]);
      CutOffFails(img, extents[1..], limit - extents[0].value.size);
    }
  }
}
