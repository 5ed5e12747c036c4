/** Machine integers, checked arithmetic, little-endian decoding and the bit operations the parsers use. */
module Machine {

  type Byte = x: int | 0 <= x < 0x100
  type U16 = x: int | 0 <= x < 0x1_0000
  type U32 = x: int | 0 <= x < 0x1_0000_0000
  type U64 = x: int | 0 <= x < 0x1_0000_0000_0000_0000
  type I64 = x: int | -0x8000_0000_0000_0000 <= x < 0x8000_0000_0000_0000

  const U64_LIMIT: int := 0x1_0000_0000_0000_0000
  const U64_MAX: U64 := 0xFFFF_FFFF_FFFF_FFFF

  datatype Option<+T> = None | Some(value: T)

  /** Errors classified by cause. `Panic` stands for arithmetic the source leaves unchecked (an overflow or an
      over-long shift), `Io` for a read outside the evidence, `TooShort` for runs that cannot hold the recorded size. */
  datatype Error = InvalidFormat | TooShort | Io | Panic

  datatype Result<+T> = Ok(value: T) | Err(error: Error) {
    predicate IsFailure() { Err? }
    function PropagateFailure<U>(): Result<U>
      requires Err?
    {
      Err(error)
    }
    function Extract(): T
      requires Ok?
    {
      value
    }
  }

  /** `done` followed by the outcome of what is still to come. */
  function Prepend<T>(done: seq<T>, rest: Result<seq<T>>): Result<seq<T>> {
    if rest.Ok? then Ok(done + rest.value) else rest
  }

  lemma PrependNothing<T>(rest: Result<seq<T>>)
    ensures Prepend([], rest) == rest
  {
    if rest.Ok? {
      assert [] + rest.value == rest.value;
    }
  }

  lemma PrependTwice<T>(a: seq<T>, b: seq<T>, rest: Result<seq<T>>)
    ensures Prepend(a, Prepend(b, rest)) == Prepend(a + b, rest)
  {
    if rest.Ok? {
      assert a + (b + rest.value) == a + b + rest.value;
    }
  }

  function CheckedAdd(a: U64, b: U64): Option<U64> {
    if a + b < U64_LIMIT then Some(a + b) else None
  }

  function CheckedMul(a: U64, b: U64): Option<U64> {
    MulNonNegative(a, b);
    if a * b < U64_LIMIT then Some(a * b) else None
  }

  function SaturatingSub(a: U64, b: U64): U64 {
    if a < b then 0 else a - b
  }

  /** Division rounding up. */
  function DivCeil(a: nat, b: nat): nat
    requires b > 0
  {
    (a + b - 1) / b
  }

  function Min(a: int, b: int): int { if a <= b then a else b }

  function Max(a: int, b: int): int { if a >= b then a else b }

  lemma MulNonNegative(a: nat, b: nat)
    ensures 0 <= a * b
  {}

  lemma MulMonotone(a: nat, b: nat, c: nat)
    requires a <= b
    ensures a * c <= b * c
  {}

  /** `DivCeil` is the least multiplier that covers the dividend. */
  lemma DivCeilCovers(a: nat, b: nat, k: nat)
    requires b > 0
    ensures a <= k * b <==> DivCeil(a, b) <= k
  {
    var q := DivCeil(a, b);
    assert b * q <= a + b - 1 < b * q + b;
    if q <= k {
      MulMonotone(q, k, b);
    } else {
      MulMonotone(k + 1, q, b);
    }
  }

  /** The clusters that cover a number of bytes are no more than the bytes. */
  lemma BudgetFits(bytes: U64, size: U64)
    requires size > 0
    ensures 0 <= DivCeil(bytes, size) < U64_LIMIT
  {
    MulMonotone(1, size, bytes);
    DivCeilCovers(bytes, size, bytes);
  }

  /** A set of integers within a range is no larger than the range. */
  lemma {:induction false} BoundedSetSize(s: set<int>, lo: int, hi: int)
    requires lo <= hi && forall x <- s :: lo <= x < hi
    ensures |s| <= hi - lo
    decreases hi - lo
  {
    if lo < hi {
      BoundedSetSize(s - {lo}, lo + 1, hi);
    } else {
      assert s == {};
    }
  }

  // ----- powers of two and little-endian numbers -----

  function Pow2(k: nat): (p: nat)
    ensures p >= 1
  {
    if k == 0 then 1 else 2 * Pow2(k - 1)
  }

  lemma {:induction false} Pow2Add(a: nat, b: nat)
    ensures Pow2(a + b) == Pow2(a) * Pow2(b)
  {
    if a == 0 {
    } else {
      Pow2Add(a - 1, b);
      assert Pow2(a + b) == 2 * (Pow2(a - 1) * Pow2(b));
    }
  }

  lemma {:induction false} Pow2Monotone(a: nat, b: nat)
    requires a <= b
    ensures Pow2(a) <= Pow2(b)
    decreases b
  {
    if a < b {
      Pow2Monotone(a, b - 1);
    }
  }

  /** The number a little-endian byte string denotes. */
  function LittleEndian(bs: seq<Byte>): nat {
    if bs == [] then 0 else bs[0] + 256 * LittleEndian(bs[1..])
  }

  /** The `width`-byte little-endian encoding of `v`, dropping what does not fit. */
  function ToLittleEndian(v: nat, width: nat): (bs: seq<Byte>)
    ensures |bs| == width
  {
    if width == 0 then [] else [v % 256] + ToLittleEndian(v / 256, width - 1)
  }

  lemma {:induction false} LittleEndianBound(bs: seq<Byte>)
    ensures LittleEndian(bs) < Pow2(8 * |bs|)
  {
    if bs != [] {
      LittleEndianBound(bs[1..]);
      Pow2Add(8, 8 * |bs[1..]|);
      assert Pow2(8) == 256;
    }
  }

  lemma {:induction false} LittleEndianAppend(bs: seq<Byte>, b: Byte)
    ensures LittleEndian(bs + [b]) == LittleEndian(bs) + b * Pow2(8 * |bs|)
  {
    var n := |bs|;
    if n == 0 {
      assert bs + [b] == [b] && [b][1..] == [];
    } else {
      assert (bs + [b])[1..] == bs[1..] + [b];
      LittleEndianAppend(bs[1..], b);
      var p := Pow2(8 * (n - 1));
      assert Pow2(8 * n) == 256 * p by {
        Pow2Add(8, 8 * (n - 1));
        assert Pow2(8) == 256;
      }
      assert b * Pow2(8 * n) == 256 * (b * p);
    }
  }

  lemma {:induction false} LittleEndianRoundTrip(v: nat, width: nat)
    requires v < Pow2(8 * width)
    ensures LittleEndian(ToLittleEndian(v, width)) == v
  {
    if width > 0 {
      Pow2Add(8, 8 * (width - 1));
      assert Pow2(8) == 256;
      SplitByte(v, Pow2(8 * (width - 1)));
      LittleEndianRoundTrip(v / 256, width - 1);
      assert ToLittleEndian(v, width)[1..] == ToLittleEndian(v / 256, width - 1);
    }
  }

  lemma SplitByte(v: nat, p: nat)
    ensures v % 256 + 256 * (v / 256) == v && (v < 256 * p ==> v / 256 < p)
  {}

  function U16At(data: seq<Byte>, i: nat): U16
    requires i + 2 <= |data|
  {
    data[i] as int + 0x100 * (data[i + 1] as int)
  }

  function U32At(data: seq<Byte>, i: nat): U32
    requires i + 4 <= |data|
  {
    U16At(data, i) as int + 0x1_0000 * (U16At(data, i + 2) as int)
  }

  function U64At(data: seq<Byte>, i: nat): U64
    requires i + 8 <= |data|
  {
    U32At(data, i) as int + 0x1_0000_0000 * (U32At(data, i + 4) as int)
  }

  /** The `width` bytes at `at` spell out the value, low byte first. */
  ghost predicate Stores(data: seq<Byte>, at: nat, value: nat, width: nat) {
    at + width <= |data| && data[at..at + width] == ToLittleEndian(value, width)
  }

  lemma StoredValue(data: seq<Byte>, at: nat, value: nat, width: nat)
    requires Stores(data, at, value, width) && value < Pow2(8 * width)
    ensures LittleEndian(data[at..at + width]) == value
  {
    LittleEndianRoundTrip(value, width);
  }

  lemma StoredU16(data: seq<Byte>, at: nat, value: U16)
    requires Stores(data, at, value, 2)
    ensures U16At(data, at) == value
  {
    Pow2Of16();
    StoredValue(data, at, value, 2);
    SplitLittleEndian(data[at..at + 2]);
  }

  lemma SplitLittleEndian(bs: seq<Byte>)
    ensures |bs| == 2 ==> LittleEndian(bs) == U16At(bs, 0)
    ensures |bs| == 4 ==> LittleEndian(bs) == U16At(bs, 0) + 0x1_0000 * LittleEndian(bs[2..])
  {
    if |bs| >= 2 {
      assert bs[1..][0] == bs[1] && bs[1..][1..] == bs[2..];
      assert LittleEndian(bs) == bs[0] + 256 * (bs[1] + 256 * LittleEndian(bs[2..]));
    }
    if |bs| == 2 {
      assert bs[2..] == [];
    }
  }

  lemma StoredU32(data: seq<Byte>, at: nat, value: U32)
    requires Stores(data, at, value, 4)
    ensures U32At(data, at) == value
  {
    Pow2Of16();
    StoredValue(data, at, value, 4);
    U32IsLittleEndian(data, at);
  }

  lemma U32IsLittleEndian(data: seq<Byte>, at: nat)
    requires at + 4 <= |data|
    ensures U32At(data, at) == LittleEndian(data[at..at + 4])
  {
    SplitLittleEndian(data[at..at + 4]);
    SplitLittleEndian(data[at..at + 4][2..]);
  }

  lemma StoredU64(data: seq<Byte>, at: nat, value: U64)
    requires Stores(data, at, value, 8)
    ensures U64At(data, at) == value
  {
    Pow2Of64();
    StoredValue(data, at, value, 8);
    U32IsLittleEndian(data, at);
    U32IsLittleEndian(data, at + 4);
    JoinLittleEndian(data[at..at + 4], data[at + 4..at + 8]);
    assert data[at..at + 8] == data[at..at + 4] + data[at + 4..at + 8];
  }

  lemma JoinLittleEndian(low: seq<Byte>, high: seq<Byte>)
    requires |low| == 4
    ensures LittleEndian(low + high) == LittleEndian(low) + 0x1_0000_0000 * LittleEndian(high)
  {
    JoinTwo(low[..2], low[2..] + high);
    JoinTwo(low[2..], high);
    JoinTwo(low[..2], low[2..]);
    JoinTwo(low[2..], []);
    assert low + high == low[..2] + (low[2..] + high) && low == low[..2] + low[2..] && low[2..] == low[2..] + [];
  }

  lemma JoinTwo(low: seq<Byte>, high: seq<Byte>)
    requires |low| == 2
    ensures LittleEndian(low + high) == U16At(low, 0) + 0x1_0000 * LittleEndian(high)
  {
    var bs := low + high;
    assert bs[1..][0] == low[1] && bs[1..][1..] == high;
    assert LittleEndian(bs) == bs[0] + 256 * (bs[1..][0] + 256 * LittleEndian(bs[1..][1..]));
  }

  // ----- bit operations on unsigned machine words -----

  /** Bitwise or: bit k of the result is set iff bit k of either operand is. */
  function BitOr(a: nat, b: nat): nat
    decreases a + b
  {
    if a == 0 && b == 0 then 0
    else 2 * BitOr(a / 2, b / 2) + (if a % 2 == 1 || b % 2 == 1 then 1 else 0)
  }

  /** Bitwise and. */
  function BitAnd(a: nat, b: nat): nat
    decreases a + b
  {
    if a == 0 && b == 0 then 0
    else 2 * BitAnd(a / 2, b / 2) + (if a % 2 == 1 && b % 2 == 1 then 1 else 0)
  }

  /** Left shift of a 64-bit word: bits shifted past bit 63 are lost. */
  function ShiftLeft(a: U64, k: nat): U64
    requires k < 64
  {
    (a * Pow2(k)) % U64_LIMIT
  }

  lemma {:induction false} BitAndZero(a: nat)
    ensures BitAnd(0, a) == 0
  {
    if a > 0 {
      BitAndZero(a / 2);
    }
  }

  /** Or-ing a word whose low k bits are clear onto a k-bit number adds them. */
  lemma BitOrDisjoint(low: nat, high: nat, k: nat)
    requires low < Pow2(k)
    ensures BitOr(low, high * Pow2(k)) == low + high * Pow2(k)
  {
    DoubledIsMul(high, k);
    BitOrDoubled(low, high, k);
  }

  /** k doublings. */
  function Doubled(a: nat, k: nat): nat {
    if k == 0 then a else 2 * Doubled(a, k - 1)
  }

  lemma {:induction false} DoubledIsMul(a: nat, k: nat)
    ensures Doubled(a, k) == a * Pow2(k)
  {
    if k > 0 {
      DoubledIsMul(a, k - 1);
      TwiceIsMul(a, Pow2(k - 1));
    }
  }

  lemma TwiceIsMul(a: nat, b: nat)
    ensures a * (2 * b) == 2 * (a * b)
  {}

  lemma {:induction false} BitOrDoubled(low: nat, high: nat, k: nat)
    requires low < Pow2(k)
    ensures BitOr(low, Doubled(high, k)) == low + Doubled(high, k)
    decreases k
  {
    if k == 0 {
      BitOrFromZero(high);
    } else {
      BitOrDoubled(low / 2, high, k - 1);
      BitOrEven(low, Doubled(high, k - 1));
    }
  }

  lemma BitOrEven(low: nat, half: nat)
    ensures BitOr(low, 2 * half) == 2 * BitOr(low / 2, half) + low % 2
  {}

  lemma {:induction false} BitOrFromZero(a: nat)
    ensures BitOr(0, a) == a
  {
    if a > 0 {
      BitOrFromZero(a / 2);
    }
  }

  /** Testing the top bit of a k+1-bit number. */
  lemma {:induction false} TopBit(a: nat, k: nat)
    requires a < Pow2(k + 1)
    ensures BitAnd(a, Pow2(k)) != 0 <==> a >= Pow2(k)
    decreases k
  {
    if k == 0 {
      if a == 1 {
        assert BitAnd(0, 0) == 0;
      } else {
        BitAndZero(1);
      }
    } else {
      TopBit(a / 2, k - 1);
    }
  }

  /** Reinterpreting a 64-bit word as a two's-complement signed integer. */
  function AsI64(v: U64): I64 {
    if v < 0x8000_0000_0000_0000 then v else v - U64_LIMIT
  }

  lemma Pow2Of16()
    ensures Pow2(16) == 0x1_0000 && Pow2(32) == 0x1_0000_0000
  {
    assert Pow2(8) == 256;
    Pow2Add(8, 8);
    Pow2Add(16, 16);
  }

  lemma Pow2Of64()
    ensures Pow2(64) == U64_LIMIT && Pow2(63) == 0x8000_0000_0000_0000
  {
    Pow2Of16();
    Pow2Add(32, 32);
  }
}
