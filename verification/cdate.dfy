/**
 * The cdate codec: one value holding year, month, day, hour, minute,
 * second and nanosecond, with no timezone.
 *
 * The encoding is a fixed-size base block followed by 7-bit year groups.
 * The base block is written most significant byte first. Its fields, from
 * the top, are the 2-bit sub-second magnitude, the sub-second value
 * (10 bits per magnitude step), second (6), minute (6), hour (5), day (5),
 * month (4), and the high bits of the encoded year. The low bits of the
 * encoded year follow as 7-bit groups.
 *
 * C shifts and masks become divisions and remainders by powers of two (see
 * module Arith). Every field value is a mathematical integer, and the C
 * types' ranges are stated by `Representable`.
 */
module CDate {
  import opened Arith
  import opened Bytes
  import opened Groups

  const YEAR_BIAS: int := 2000
  const BITS_PER_YEAR_GROUP: nat := 7

  const SIZE_MAGNITUDE: nat := 2
  const SIZE_SUBSECOND: nat := 10
  const SIZE_SECOND: nat := 6
  const SIZE_MINUTE: nat := 6
  const SIZE_HOUR: nat := 5
  const SIZE_DAY: nat := 5
  const SIZE_MONTH: nat := 4

  /** Per magnitude: base block bytes, reserved year bits, and the sub-second divisor. */
  const BaseSizes: seq<nat> := [4, 5, 6, 8]
  const YearHighBits: seq<nat> := [4, 2, 0, 6]
  const SubsecMultipliers: seq<nat> := [1, 1000000, 1000, 1]

  datatype Date = Date(year: int, month: nat, day: nat, hour: nat, minute: nat, second: nat, nanosecond: nat)

  /** The ranges of the C struct's field types: int32 year, uint8 calendar fields, uint32 nanosecond. */
  predicate Representable(d: Date) {
    Int32(d.year) && d.month < 256 && d.day < 256 && d.hour < 256
    && d.minute < 256 && d.second < 256 && d.nanosecond < UINT32_LIMIT
  }

  /** Values that fit their bit fields, so that the packed fields do not overlap. */
  predicate FitsFields(d: Date) {
    d.month < 16 && d.day < 32 && d.hour < 32 && d.minute < 64 && d.second < 64
    && d.nanosecond <= 999_999_999
  }

  // ---------------------------------------------------------------------
  // Sub-second magnitude
  // ---------------------------------------------------------------------

  /** 0 for no sub-second part, 1 for milliseconds, 2 for microseconds, 3 for nanoseconds. */
  function SubsecondMagnitude(nanosecond: nat): (m: nat)
    ensures m <= 3
    ensures m == 0 <==> nanosecond == 0
    ensures m == 3 <==> nanosecond % 1000 != 0
    ensures m == 2 <==> nanosecond % 1000 == 0 && nanosecond % 1000000 != 0
    ensures m == 1 <==> nanosecond != 0 && nanosecond % 1000000 == 0
  {
    MillionsAreThousands(nanosecond);
    if nanosecond == 0 then 0
    else if nanosecond % 1000 != 0 then 3
    else if nanosecond % 1000000 != 0 then 2
    else 1
  }

  lemma MillionsAreThousands(x: nat)
    ensures x % 1000000 == 0 ==> x % 1000 == 0
  {
    if x % 1000000 == 0 {
      var q := x / 1000000;
      assert x == (q * 1000) * 1000;
      DivModUnique(x, 1000, q * 1000, 0);
    }
  }

  /**
   * Storing `nanosecond` at magnitude m loses nothing: the quotient by the
   * magnitude's divisor fits the 10*m-bit field and multiplies back exactly.
   */
  predicate Restores(m: nat, nanosecond: nat)
    requires m <= 3
  {
    var stored := nanosecond / SubsecMultipliers[m];
    stored < Pow2(SIZE_SUBSECOND * m) && stored * SubsecMultipliers[m] == nanosecond
  }

  lemma SubsecondFieldLimits()
    ensures Pow2(SIZE_SUBSECOND * 0) == 1
    ensures Pow2(SIZE_SUBSECOND * 1) == 1024
    ensures Pow2(SIZE_SUBSECOND * 2) == 1048576
    ensures Pow2(SIZE_SUBSECOND * 3) == 1073741824
  {
    assert Pow2(10) == 1024;
    Pow2Add(10, 10);
    Pow2Add(20, 10);
  }

  /** The selected magnitude is the smallest one that stores the value exactly. */
  lemma MagnitudeIsLeastExact(nanosecond: nat)
    requires nanosecond <= 999_999_999
    ensures Restores(SubsecondMagnitude(nanosecond), nanosecond)
    ensures forall m :: 0 <= m < SubsecondMagnitude(nanosecond) ==> !Restores(m, nanosecond)
  {
    SubsecondFieldLimits();
  }

  // ---------------------------------------------------------------------
  // Year remapping
  // ---------------------------------------------------------------------

  /** ZigZag: non-negative values become even numbers, negative ones odd numbers. */
  function ZigZagEncode(value: int): (u: nat)
    requires Int32(value)
    ensures u < UINT32_LIMIT
    ensures u % 2 == 0 <==> value >= 0
    ensures ZigZagDecode(u) == value
  {
    if value >= 0 then 2 * value else -2 * value - 1
  }

  function ZigZagDecode(u: nat): (value: int)
    ensures u < UINT32_LIMIT ==> Int32(value)
    ensures value >= 0 <==> u % 2 == 0
  {
    if u % 2 == 0 then u / 2 else -(u / 2) - 1
  }

  /** Every 32-bit unsigned value is the remapping of exactly the value it decodes to. */
  lemma ZigZagDecodeInverse(u: nat)
    requires u < UINT32_LIMIT
    ensures ZigZagEncode(ZigZagDecode(u)) == u
  {
  }

  function EncodeYear(year: int): (u: nat)
    requires Int32(year) && Int32(year - YEAR_BIAS)
    ensures u < UINT32_LIMIT
    ensures DecodeYear(u) == year
  {
    ZigZagEncode(year - YEAR_BIAS)
  }

  function DecodeYear(encodedYear: nat): int {
    ZigZagDecode(encodedYear) + YEAR_BIAS
  }

  // ---------------------------------------------------------------------
  // Base block size and year groups
  // ---------------------------------------------------------------------

  function BaseBitCount(m: nat): nat
    requires m <= 3
  {
    SIZE_MAGNITUDE + SIZE_SUBSECOND * m + SIZE_SECOND + SIZE_MINUTE + SIZE_HOUR
    + SIZE_DAY + SIZE_MONTH + YearHighBits[m]
  }

  /** The computed base size agrees with the table and the fields fill whole bytes. */
  function BaseByteCount(m: nat): (n: nat)
    requires m <= 3
    ensures n == BaseSizes[m]
    ensures BaseBitCount(m) == 8 * n
  {
    BaseBitCount(m) / 8
  }

  /** `x >> 7k`: x without its low k groups. */
  function DropGroups(x: nat, k: nat): nat {
    Shr(x, BITS_PER_YEAR_GROUP * k)
  }

  lemma DropOneMoreGroup(x: nat, k: nat)
    ensures DropGroups(x, k + 1) == DropGroups(x, k) / 128
    ensures DropGroups(x / 128, k) == DropGroups(x, k + 1)
  {
    assert Pow2(7) == 128;
    ShrIsDiv(x, 7);
    ShrIsDiv(Shr(x, 7 * k), 7);
    ShrShr(x, 7 * k, 7);
    ShrShr(x, 7, 7 * k);
  }

  /** The number of groups to drop from x before it fits `bits` bits. */
  function GroupsAbove(x: nat, bits: nat): (k: nat)
    ensures DropGroups(x, k) < Pow2(bits)
    ensures forall j :: 0 <= j < k ==> DropGroups(x, j) >= Pow2(bits)
    decreases x
  {
    if x < Pow2(bits) then
      assert DropGroups(x, 0) == x;
      0
    else
      var k' := GroupsAbove(x / 128, bits);
      DropOneMoreGroup(x, k');
      forall j | 0 <= j < 1 + k' ensures DropGroups(x, j) >= Pow2(bits) {
        if j == 0 {
          assert DropGroups(x, 0) == x;
        } else {
          DropOneMoreGroup(x, j - 1);
        }
      }
      1 + k'
  }

  /**
   * The number of 7-bit groups that carry the low bits of the encoded year:
   * the least count, at least one, whose remaining high bits fit the
   * base block's reserved year field for magnitude m.
   */
  function YearGroupCount(encodedYear: nat, m: nat): (c: nat)
    requires m <= 3
    ensures c >= 1
    ensures DropGroups(encodedYear, c) < Pow2(YearHighBits[m])
    ensures forall k :: 1 <= k < c ==> DropGroups(encodedYear, k) >= Pow2(YearHighBits[m])
  {
    var rest := encodedYear / 128;
    var k := GroupsAbove(rest, YearHighBits[m]);
    DropOneMoreGroup(encodedYear, k);
    forall j | 1 <= j < 1 + k ensures DropGroups(encodedYear, j) >= Pow2(YearHighBits[m]) {
      DropOneMoreGroup(encodedYear, j - 1);
    }
    1 + k
  }

  /** A count with the defining properties is the year group count. */
  lemma YearGroupCountUnique(encodedYear: nat, m: nat, c: nat)
    requires m <= 3 && c >= 1
    requires DropGroups(encodedYear, c) < Pow2(YearHighBits[m])
    requires forall k :: 1 <= k < c ==> DropGroups(encodedYear, k) >= Pow2(YearHighBits[m])
    ensures YearGroupCount(encodedYear, m) == c
  {
  }

  /** A 32-bit encoded year needs at most five groups; below 2^28 at most four. */
  lemma YearGroupCountBound(encodedYear: nat, m: nat)
    requires m <= 3 && encodedYear < UINT32_LIMIT
    ensures YearGroupCount(encodedYear, m) <= 5
    ensures encodedYear < Pow2(28) ==> YearGroupCount(encodedYear, m) <= 4
  {
    var c := YearGroupCount(encodedYear, m);
    Pow2Monotone(0, YearHighBits[m]);
    // Five groups leave nothing of a 32-bit value, and four nothing of a 28-bit one.
    Pow2Uint32();
    Pow2Monotone(32, 35);
    ShrZeroIff(encodedYear, 35);
    assert DropGroups(encodedYear, 5) == 0;
    if encodedYear < Pow2(28) {
      ShrZeroIff(encodedYear, 28);
      assert DropGroups(encodedYear, 4) == 0;
    }
  }

  /** With no sub-second part, exactly the years 976 to 3023 take a single year group. */
  lemma OneGroupYears(year: int)
    requires Int32(year) && Int32(year - YEAR_BIAS)
    ensures YearGroupCount(EncodeYear(year), 0) == 1 <==> 976 <= year <= 3023
  {
    var encodedYear := EncodeYear(year);
    ShrIsDiv(encodedYear, BITS_PER_YEAR_GROUP * 1);
    assert Pow2(BITS_PER_YEAR_GROUP * 1) == 128 && Pow2(YearHighBits[0]) == 16;
    assert DropGroups(encodedYear, 1) < Pow2(YearHighBits[0]) <==> encodedYear < 2048;
    if encodedYear < 2048 {
      YearGroupCountUnique(encodedYear, 0, 1);
    }
  }

  /** Every date within 2^27 years of 2000 has an encoded year below 2^28, and so at most four year groups. */
  lemma NearYearsFourGroups(year: int, m: nat)
    requires m <= 3 && -0x800_0000 < year - YEAR_BIAS < 0x800_0000
    ensures EncodeYear(year) < Pow2(28)
    ensures YearGroupCount(EncodeYear(year), m) <= 4
  {
    assert Pow2(28) == 0x1000_0000 by {
      assert Pow2(14) == 0x4000 by {
        assert Pow2(7) == 128;
        Pow2Add(7, 7);
      }
      Pow2Add(14, 14);
    }
    YearGroupCountBound(EncodeYear(year), m);
  }

  /** `get_year_group_count`: count the groups of the encoded year, then give back the top one if it fits the reserved field. */
  method GetYearGroupCount(encodedYear: nat, subsecondMagnitude: nat) returns (c: nat)
    requires encodedYear < UINT32_LIMIT && subsecondMagnitude <= 3
    ensures c == YearGroupCount(encodedYear, subsecondMagnitude)
  {
    var extraBitCount := YearHighBits[subsecondMagnitude];
    var year := Shr(encodedYear, BITS_PER_YEAR_GROUP);
    assert year == DropGroups(encodedYear, 1);
    if year == 0 {
      FirstGroupSuffices(encodedYear, subsecondMagnitude);
      return 1;
    }
    var size := 1;
    while year != 0
      invariant size >= 1
      invariant year == DropGroups(encodedYear, size)
      invariant DropGroups(encodedYear, size - 1) != 0
      decreases year
    {
      size := size + 1;
      DropOneMoreGroup(encodedYear, size - 1);
      ShrIsDiv(year, BITS_PER_YEAR_GROUP);
      assert Pow2(7) == 128;
      year := Shr(year, BITS_PER_YEAR_GROUP);
    }
    var lastGroupBits := DropGroups(encodedYear, size - 1);
    DropOneMoreGroup(encodedYear, size - 1);
    TopGroupsAtLeast128(encodedYear, size - 1);
    // `last_group_bits & ~extra_mask` is non-zero exactly when the group has bits above the reserved field.
    ShrZeroIff(lastGroupBits, extraBitCount);
    if Shr(lastGroupBits, extraBitCount) != 0 {
      c := size;
    } else {
      c := size - 1;
    }
    ReservedFieldAtMost64(subsecondMagnitude);
    YearGroupCountUnique(encodedYear, subsecondMagnitude, c);
  }

  lemma FirstGroupSuffices(encodedYear: nat, m: nat)
    requires m <= 3 && DropGroups(encodedYear, 1) == 0
    ensures YearGroupCount(encodedYear, m) == 1
  {
    Pow2Monotone(0, YearHighBits[m]);
    YearGroupCountUnique(encodedYear, m, 1);
  }

  lemma ReservedFieldAtMost64(m: nat)
    requires m <= 3
    ensures 1 <= Pow2(YearHighBits[m]) <= 64
  {
    assert Pow2(6) == 64;
    Pow2Monotone(YearHighBits[m], 6);
  }

  /** Below a non-zero group every dropped-group value is at least 128. */
  lemma TopGroupsAtLeast128(x: nat, top: nat)
    requires DropGroups(x, top) != 0
    ensures forall k :: 0 <= k < top ==> DropGroups(x, k) >= 128
  {
    forall k | 0 <= k < top ensures DropGroups(x, k) >= 128 {
      DropGroupsMonotone(x, k + 1, top);
      DropOneMoreGroup(x, k);
    }
  }

  lemma {:induction false} DropGroupsMonotone(x: nat, i: nat, j: nat)
    requires i <= j
    ensures DropGroups(x, j) <= DropGroups(x, i)
    decreases j - i
  {
    if i < j {
      DropGroupsMonotone(x, i, j - 1);
      DropOneMoreGroup(x, j - 1);
    }
  }

  // ---------------------------------------------------------------------
  // Base block
  // ---------------------------------------------------------------------

  datatype BaseBlock = BaseBlock(magnitude: nat, subsecond: nat, second: nat, minute: nat,
                                 hour: nat, day: nat, month: nat, yearHigh: nat)

  /** Every field fits its width, so the shift-and-add keeps them apart. */
  predicate FieldsFit(b: BaseBlock) {
    b.magnitude <= 3
    && b.subsecond < Pow2(SIZE_SUBSECOND * b.magnitude)
    && b.second < Pow2(SIZE_SECOND) && b.minute < Pow2(SIZE_MINUTE)
    && b.hour < Pow2(SIZE_HOUR) && b.day < Pow2(SIZE_DAY) && b.month < Pow2(SIZE_MONTH)
    && b.yearHigh < Pow2(YearHighBits[b.magnitude])
  }

  /** `(acc << width) + field`, one step of the encoder's accumulator. */
  function Push(acc: nat, width: nat, field: nat): nat {
    acc * Pow2(width) + field
  }

  /** The encoder's shift-and-add of every field after `init`. */
  function Pack(init: nat, b: BaseBlock): nat
    requires b.magnitude <= 3
  {
    var m := b.magnitude;
    Push(Push(Push(Push(Push(Push(Push(init,
      SIZE_SUBSECOND * m, b.subsecond),
      SIZE_SECOND, b.second),
      SIZE_MINUTE, b.minute),
      SIZE_HOUR, b.hour),
      SIZE_DAY, b.day),
      SIZE_MONTH, b.month),
      YearHighBits[m], b.yearHigh)
  }

  /** The accumulator the encoder builds, starting from the magnitude. */
  function Accumulator(b: BaseBlock): nat
    requires b.magnitude <= 3
  {
    Pack(b.magnitude, b)
  }

  /** The decoder's masks and shifts, lowest field first; what is left is the sub-second value. */
  function Split(m: nat, acc: nat): BaseBlock
    requires m <= 3
  {
    var yearHigh := acc % Pow2(YearHighBits[m]);
    var a1 := Shr(acc, YearHighBits[m]);
    var month := a1 % Pow2(SIZE_MONTH);
    var a2 := Shr(a1, SIZE_MONTH);
    var day := a2 % Pow2(SIZE_DAY);
    var a3 := Shr(a2, SIZE_DAY);
    var hour := a3 % Pow2(SIZE_HOUR);
    var a4 := Shr(a3, SIZE_HOUR);
    var minute := a4 % Pow2(SIZE_MINUTE);
    var a5 := Shr(a4, SIZE_MINUTE);
    var second := a5 % Pow2(SIZE_SECOND);
    var a6 := Shr(a5, SIZE_SECOND);
    BaseBlock(m, a6, second, minute, hour, day, month, yearHigh)
  }

  /** Masking and shifting by a width undoes one push of a field that fits it. */
  lemma Peel(acc: nat, width: nat, field: nat)
    requires field < Pow2(width)
    ensures Push(acc, width, field) % Pow2(width) == field
    ensures Shr(Push(acc, width, field), width) == acc
  {
    DivModUnique(Push(acc, width, field), Pow2(width), acc, field);
    ShrIsDiv(Push(acc, width, field), width);
  }

  /** `a` placed above `bits` low bits that hold `x`. */
  function Stacked(a: nat, bits: nat, x: nat): nat {
    a * Pow2(bits) + x
  }

  /** Pushing a field onto a stacked value pushes it onto the low part and keeps `a` above all of it. */
  lemma PushAbove(a: nat, x: nat, bitsBelow: nat, width: nat, field: nat)
    requires x < Pow2(bitsBelow) && field < Pow2(width)
    ensures Push(Stacked(a, bitsBelow, x), width, field) == Stacked(a, bitsBelow + width, Push(x, width, field))
    ensures Push(x, width, field) < Pow2(bitsBelow + width)
  {
    Pow2Add(bitsBelow, width);
    StackStep(a, Pow2(bitsBelow), x, Pow2(width), field);
  }

  lemma StackStep(a: int, p: int, x: int, q: int, f: int)
    requires 0 <= x < p && 0 <= f < q
    ensures (a * p + x) * q + f == a * (p * q) + (x * q + f)
    ensures x * q + f < p * q
  {
    assert (a * p + x) * q == a * p * q + x * q;
    MulLeft(q, x, p - 1);
    assert q * (p - 1) == p * q - q;
  }

  /** The base block's fields after the magnitude as (width, value) pairs, in the order they are pushed. */
  function Fields(b: BaseBlock): seq<(nat, nat)>
    requires b.magnitude <= 3
  {
    [(SIZE_SUBSECOND * b.magnitude, b.subsecond), (SIZE_SECOND, b.second), (SIZE_MINUTE, b.minute),
     (SIZE_HOUR, b.hour), (SIZE_DAY, b.day), (SIZE_MONTH, b.month),
     (YearHighBits[b.magnitude], b.yearHigh)]
  }

  /** Push each field in turn. */
  function PushAll(acc: nat, fields: seq<(nat, nat)>): nat
    decreases |fields|
  {
    if fields == [] then acc else PushAll(Push(acc, fields[0].0, fields[0].1), fields[1..])
  }

  function Width(fields: seq<(nat, nat)>): nat
    decreases |fields|
  {
    if fields == [] then 0 else fields[0].0 + Width(fields[1..])
  }

  predicate AllFit(fields: seq<(nat, nat)>) {
    forall i :: 0 <= i < |fields| ==> fields[i].1 < Pow2(fields[i].0)
  }

  /** Pushing fields that fit onto a stacked value keeps `a` above all of them. */
  lemma {:induction false} PushAllStacked(a: nat, x: nat, bits: nat, fields: seq<(nat, nat)>)
    requires x < Pow2(bits) && AllFit(fields)
    ensures PushAll(Stacked(a, bits, x), fields) == Stacked(a, bits + Width(fields), PushAll(x, fields))
    ensures PushAll(x, fields) < Pow2(bits + Width(fields))
    decreases |fields|
  {
    if fields != [] {
      var (w, f) := fields[0];
      assert f < Pow2(w);
      PushAbove(a, x, bits, w, f);
      assert AllFit(fields[1..]) by {
        forall i | 0 <= i < |fields| - 1 ensures fields[1..][i].1 < Pow2(fields[1..][i].0) {
          assert fields[1..][i] == fields[i + 1];
        }
      }
      PushAllStacked(a, Push(x, w, f), bits + w, fields[1..]);
    }
  }

  lemma PushAllCons(acc: nat, field: (nat, nat), rest: seq<(nat, nat)>)
    ensures PushAll(acc, [field] + rest) == PushAll(Push(acc, field.0, field.1), rest)
    ensures Width([field] + rest) == field.0 + Width(rest)
  {
    assert ([field] + rest)[1..] == rest;
  }

  /** The C shift-and-add chain is pushing the field list. */
  lemma PackIsPushAll(init: nat, b: BaseBlock)
    requires b.magnitude <= 3
    ensures Pack(init, b) == PushAll(init, Fields(b))
    ensures Width(Fields(b)) == BaseBitCount(b.magnitude) - 2
  {
    var m := b.magnitude;
    var f1, f2, f3, f4 := (SIZE_SUBSECOND * m, b.subsecond), (SIZE_SECOND, b.second), (SIZE_MINUTE, b.minute), (SIZE_HOUR, b.hour);
    var f5, f6, f7 := (SIZE_DAY, b.day), (SIZE_MONTH, b.month), (YearHighBits[m], b.yearHigh);
    var r7: seq<(nat, nat)> := [f7];
    var r6 := [f6] + r7;
    var r5 := [f5] + r6;
    var r4 := [f4] + r5;
    var r3 := [f3] + r4;
    var r2 := [f2] + r3;
    var r1 := [f1] + r2;
    assert r1 == Fields(b);
    var y1 := Push(init, f1.0, f1.1);
    var y2 := Push(y1, f2.0, f2.1);
    var y3 := Push(y2, f3.0, f3.1);
    var y4 := Push(y3, f4.0, f4.1);
    var y5 := Push(y4, f5.0, f5.1);
    var y6 := Push(y5, f6.0, f6.1);
    var y7 := Push(y6, f7.0, f7.1);
    PushAllCons(init, f1, r2);
    PushAllCons(y1, f2, r3);
    PushAllCons(y2, f3, r4);
    PushAllCons(y3, f4, r5);
    PushAllCons(y4, f5, r6);
    PushAllCons(y5, f6, r7);
    PushAllCons(y6, f7, []);
    assert r7 == [f7] + [];
  }

  lemma FieldsFitAllFit(b: BaseBlock)
    requires FieldsFit(b)
    ensures AllFit(Fields(b))
  {
  }

  /** The accumulator is the magnitude on top of the packed fields, which fill the rest of the base block. */
  lemma AccumulatorLayout(b: BaseBlock)
    requires FieldsFit(b)
    ensures Accumulator(b) == b.magnitude * Pow2(BaseBitCount(b.magnitude) - 2) + Pack(0, b)
    ensures Pack(0, b) < Pow2(BaseBitCount(b.magnitude) - 2)
  {
    var m := b.magnitude;
    PackIsPushAll(m, b);
    PackIsPushAll(0, b);
    FieldsFitAllFit(b);
    assert m == Stacked(m, 0, 0);
    PushAllStacked(m, 0, 0, Fields(b));
  }

  /** Splitting the packed fields gives them back. */
  lemma SplitPack(b: BaseBlock)
    requires FieldsFit(b)
    ensures Split(b.magnitude, Pack(0, b)) == b
  {
    var m := b.magnitude;
    var x1 := Push(0, SIZE_SUBSECOND * m, b.subsecond);
    var x2 := Push(x1, SIZE_SECOND, b.second);
    var x3 := Push(x2, SIZE_MINUTE, b.minute);
    var x4 := Push(x3, SIZE_HOUR, b.hour);
    var x5 := Push(x4, SIZE_DAY, b.day);
    var x6 := Push(x5, SIZE_MONTH, b.month);
    Peel(x6, YearHighBits[m], b.yearHigh);
    Peel(x5, SIZE_MONTH, b.month);
    Peel(x4, SIZE_DAY, b.day);
    Peel(x3, SIZE_HOUR, b.hour);
    Peel(x2, SIZE_MINUTE, b.minute);
    Peel(x1, SIZE_SECOND, b.second);
    assert x1 == b.subsecond;
  }

  /**
   * Written most significant byte first, the base block carries the
   * magnitude in the top two bits of its first byte, and clearing those
   * two bits and reading the bytes back gives every field again.
   */
  lemma BaseBlockRoundTrip(b: BaseBlock)
    requires FieldsFit(b)
    ensures var bytes := BigEndian(Accumulator(b), BaseSizes[b.magnitude]);
      bytes[0] / 64 == b.magnitude
      && Split(b.magnitude, Value([bytes[0] % 64] + bytes[1..])) == b
  {
    var n := BaseSizes[b.magnitude];
    var acc := Accumulator(b);
    AccumulatorParts(b);
    var bytes := BigEndian(acc, n);
    ValueBigEndian(acc, n);
    TopTwoBits(bytes);
    SplitPack(b);
  }

  /** The base block fills its bytes, with the magnitude in the top two bits. */
  lemma AccumulatorParts(b: BaseBlock)
    requires FieldsFit(b)
    ensures var bits := 8 * BaseSizes[b.magnitude];
      Accumulator(b) < Pow2(bits)
      && Accumulator(b) / Pow2(bits - 2) == b.magnitude
      && Accumulator(b) % Pow2(bits - 2) == Pack(0, b)
  {
    var m := b.magnitude;
    var bits := BaseBitCount(m);
    assert bits == 8 * BaseSizes[m] by {
      var _ := BaseByteCount(m);
    }
    var acc := Accumulator(b);
    AccumulatorLayout(b);
    var top := Pow2(bits - 2);
    TopTwoBitsRange(bits);
    MagnitudeOnTop(m, top, Pack(0, b));
    DivModUnique(acc, top, m, Pack(0, b));
  }

  lemma TopTwoBitsRange(bits: nat)
    requires bits >= 2
    ensures Pow2(bits) == 4 * Pow2(bits - 2)
  {
    Pow2Add(bits - 2, 2);
    assert Pow2(2) == 4;
  }

  /** A magnitude of at most 3 above `low < top` stays below 4 * top. */
  lemma MagnitudeOnTop(m: nat, top: nat, low: nat)
    requires m <= 3 && low < top
    ensures m * top + low < 4 * top
  {
    MulLeft(top, m, 3);
  }

  // ---------------------------------------------------------------------
  // Encoding
  // ---------------------------------------------------------------------

  /** `cdate_encoded_size`: the base block plus the year groups. */
  function EncodedLength(d: Date): nat
    requires Representable(d) && Int32(d.year - YEAR_BIAS)
  {
    var m := SubsecondMagnitude(d.nanosecond);
    BaseSizes[m] + YearGroupCount(EncodeYear(d.year), m)
  }

  /** The fields the encoder packs into the base block for d. */
  function BaseBlockOf(d: Date): BaseBlock
    requires Representable(d) && Int32(d.year - YEAR_BIAS)
  {
    var m := SubsecondMagnitude(d.nanosecond);
    var encodedYear := EncodeYear(d.year);
    var c := YearGroupCount(encodedYear, m);
    BaseBlock(m, d.nanosecond / SubsecMultipliers[m], d.second, d.minute, d.hour, d.day, d.month,
              DropGroups(encodedYear, c))
  }

  /** The low bits of the encoded year that go into the groups. */
  function LowYear(d: Date): nat
    requires Representable(d) && Int32(d.year - YEAR_BIAS)
  {
    var m := SubsecondMagnitude(d.nanosecond);
    var encodedYear := EncodeYear(d.year);
    encodedYear % Pow2(BITS_PER_YEAR_GROUP * YearGroupCount(encodedYear, m))
  }

  /** What `cdate_encode` writes into a buffer of `dstLength` bytes that has room. */
  function EncodedBytes(d: Date, gc: GroupCoder, dstLength: nat): seq<byte>
    requires Representable(d) && Int32(d.year - YEAR_BIAS)
    requires EncodedLength(d) <= dstLength
  {
    var n := BaseSizes[SubsecondMagnitude(d.nanosecond)];
    BigEndian(Accumulator(BaseBlockOf(d)), n) + gc.encode(LowYear(d), dstLength - n)
  }

  /** `cdate_encoded_size`. */
  method EncodedSize(d: Date) returns (size: int)
    requires Representable(d) && Int32(d.year - YEAR_BIAS)
    ensures size == EncodedLength(d)
  {
    var magnitude := SubsecondMagnitude(d.nanosecond);
    var baseByteCount := BaseByteCount(magnitude);
    var encodedYear := EncodeYear(d.year);
    var yearGroupCount := GetYearGroupCount(encodedYear, magnitude);
    size := baseByteCount + yearGroupCount;
  }

  /** The encoder's byte loop: the low n bytes of the accumulator, most significant first, at the start of dst. */
  method WriteBaseBlock(dst: array<byte>, accumulator: nat, n: nat) returns (offset: nat)
    requires n <= dst.Length
    modifies dst
    ensures offset == n
    ensures dst[..n] == BigEndian(accumulator, n)
    ensures dst[n..] == old(dst[n..])
  {
    offset := 0;
    var i := n - 1;
    while i >= 0
      invariant -1 <= i < n && offset == n - 1 - i
      invariant forall k :: 0 <= k < offset ==> dst[k] == Shr(accumulator, 8 * (n - 1 - k)) % 256
      invariant forall k :: offset <= k < dst.Length ==> dst[k] == old(dst[k])
    {
      dst[offset] := Shr(accumulator, 8 * i) % 256;
      offset := offset + 1;
      i := i - 1;
    }
    assert dst[..n] == BigEndian(accumulator, n);
  }

  /**
   * `cdate_encode`: refuse with -1, writing nothing, when the encoded size
   * exceeds the buffer; otherwise write the base block most significant
   * byte first, let the group encoder write the low year bits after it,
   * and return the number of bytes written.
   */
  /**
   * The shifts that build the accumulator of `cdate_encode`: the magnitude
   * first, then each field above the previous ones, and last the high bits
   * of the encoded year.
   */
  method PackAccumulator(d: Date, encodedYear: nat, yearGroupCount: nat) returns (accumulator: nat)
    requires Representable(d) && Int32(d.year - YEAR_BIAS) && encodedYear == EncodeYear(d.year)
    requires yearGroupCount == YearGroupCount(encodedYear, SubsecondMagnitude(d.nanosecond))
    ensures accumulator == Accumulator(BaseBlockOf(d))
  {
    var magnitude := SubsecondMagnitude(d.nanosecond);
    var subsecond := d.nanosecond / SubsecMultipliers[magnitude];
    var yearGroupBitCount := yearGroupCount * BITS_PER_YEAR_GROUP;
    assert yearGroupBitCount == BITS_PER_YEAR_GROUP * yearGroupCount;

    accumulator := magnitude;
    accumulator := Push(accumulator, SIZE_SUBSECOND * magnitude, subsecond);
    accumulator := Push(accumulator, SIZE_SECOND, d.second);
    accumulator := Push(accumulator, SIZE_MINUTE, d.minute);
    accumulator := Push(accumulator, SIZE_HOUR, d.hour);
    accumulator := Push(accumulator, SIZE_DAY, d.day);
    accumulator := Push(accumulator, SIZE_MONTH, d.month);
    accumulator := Push(accumulator, YearHighBits[magnitude], Shr(encodedYear, yearGroupBitCount));
  }

  method Encode(d: Date, dst: array<byte>, gc: GroupCoder) returns (r: int)
    requires Representable(d) && Int32(d.year - YEAR_BIAS) && StaysWithin(gc)
    requires YearGroupCount(EncodeYear(d.year), SubsecondMagnitude(d.nanosecond)) <= 4
             || EncodedLength(d) > dst.Length
    modifies dst
    ensures EncodedLength(d) > dst.Length ==> r == -1 && dst[..] == old(dst[..])
    ensures EncodedLength(d) <= dst.Length ==>
      0 <= r <= dst.Length
      && dst[..r] == EncodedBytes(d, gc, dst.Length)
      && dst[r..] == old(dst[r..])
  {
    var magnitude := SubsecondMagnitude(d.nanosecond);
    var baseByteCount := BaseByteCount(magnitude);
    var encodedYear := EncodeYear(d.year);
    var yearGroupCount := GetYearGroupCount(encodedYear, magnitude);

    if baseByteCount + yearGroupCount > dst.Length {
      return -1;
    }

    var accumulator := PackAccumulator(d, encodedYear, yearGroupCount);
    encodedYear := encodedYear % Pow2(BITS_PER_YEAR_GROUP * yearGroupCount);
    assert encodedYear == LowYear(d);

    r := WriteEncoding(dst, accumulator, baseByteCount, encodedYear, gc);
    assert EncodedBytes(d, gc, dst.Length) == BigEndian(accumulator, baseByteCount) + gc.encode(encodedYear, dst.Length - baseByteCount);
  }

  /**
   * The writes of `cdate_encode`: the low n bytes of the accumulator most
   * significant first, then the external group encoder's bytes for the low
   * year bits, within the room left. Nothing past them changes.
   */
  method WriteEncoding(dst: array<byte>, accumulator: nat, n: nat, lowYear: nat, gc: GroupCoder) returns (r: nat)
    requires n <= dst.Length && StaysWithin(gc)
    modifies dst
    ensures r == n + |gc.encode(lowYear, dst.Length - n)| <= dst.Length
    ensures dst[..r] == BigEndian(accumulator, n) + gc.encode(lowYear, dst.Length - n)
    ensures dst[r..] == old(dst[r..])
  {
    var offset := WriteBaseBlock(dst, accumulator, n);
    ghost var block := dst[..offset];
    r := WriteGroups(dst, offset, lowYear, gc);
    assert dst[..r] == block + dst[offset..r] by {
      assert dst[..r] == dst[..offset] + dst[offset..r];
    }
  }

  /**
   * The call to the external group encoder: its bytes go at `dst + offset`,
   * within the room left, and nothing else in the buffer changes.
   */
  method WriteGroups(dst: array<byte>, offset: nat, low: nat, gc: GroupCoder) returns (r: nat)
    requires offset <= dst.Length && StaysWithin(gc)
    modifies dst
    ensures r == offset + |gc.encode(low, dst.Length - offset)| <= dst.Length
    ensures dst[..offset] == old(dst[..offset])
    ensures dst[offset..r] == gc.encode(low, dst.Length - offset)
    ensures dst[r..] == old(dst[r..])
  {
    var groups := gc.encode(low, dst.Length - offset);
    assert |groups| <= dst.Length - offset;
    forall k | 0 <= k < |groups| {
      dst[offset + k] := groups[k];
    }
    r := offset + |groups|;
  }

  // ---------------------------------------------------------------------
  // Decoding
  // ---------------------------------------------------------------------

  datatype DecodeResult = Failed | Decoded(date: Date, length: int)

  /** What `cdate_decode` makes of `src`, given the group decoder. */
  function DecodeOf(src: seq<byte>, gc: GroupCoder): DecodeResult {
    if |src| < 1 then Failed
    else
      var m := src[0] / 64;
      var n := BaseSizes[m];
      if n >= |src| then Failed
      else
        var b := Split(m, Value([src[0] % 64] + src[1..n]));
        var (encodedYear, count) := gc.decode(b.yearHigh, src[n..]);
        Decoded(UnpackedDate(m, b, encodedYear), n + count)
  }

  /** The date that unpacked base-block fields and the group decoder's encoded year stand for. */
  function UnpackedDate(m: nat, b: BaseBlock, encodedYear: nat): Date
    requires m <= 3
  {
    Date(DecodeYear(encodedYear), b.month, b.day, b.hour, b.minute, b.second,
         b.subsecond * SubsecMultipliers[m])
  }

  lemma FoldFitsUint64(s: seq<byte>)
    requires |s| <= 8
    ensures Value(s) < UINT64_LIMIT
  {
    ValueBound(s);
    Pow2Monotone(8 * |s|, 64);
    Pow2Uint64();
  }

  /**
   * `cdate_decode`: -1 and no date when the source is empty or does not
   * extend past the base block its first byte announces; otherwise the
   * fields of the base block, the year from the group decoder, and the base
   * size plus whatever count the group decoder returns.
   */
  method Decode(src: array<byte>, gc: GroupCoder) returns (r: int, date: Option<Date>)
    ensures date.None? <==> src.Length < 1 || src.Length <= BaseSizes[src[0] / 64]
    ensures date.None? ==> r == -1
    ensures date.Some? ==> DecodeOf(src[..], gc) == Decoded(date.value, r)
  {
    if src.Length < 1 {
      return -1, None;
    }

    var nextByte := src[0];
    var srcIndex := 1;

    var magnitude := nextByte / Pow2(6);
    assert Pow2(6) == 64;
    nextByte := nextByte % Pow2(6);

    var remainingBytes := BaseSizes[magnitude] - 1;
    var srcIndexEnd := srcIndex + remainingBytes;
    if srcIndexEnd >= src.Length {
      return -1, None;
    }

    var accumulator := nextByte;
    assert [src[0] % 64] + src[1..1] == [nextByte];
    while srcIndex < srcIndexEnd
      invariant 1 <= srcIndex <= srcIndexEnd
      invariant accumulator == Value([src[0] % 64] + src[1..srcIndex])
    {
      // `(accumulator << 8) | src[i]`: the low 8 bits are clear, so or is addition.
      accumulator := accumulator * 256 + src[srcIndex];
      srcIndex := srcIndex + 1;
      assert ([src[0] % 64] + src[1..srcIndex])[..srcIndex - 1] == [src[0] % 64] + src[1..srcIndex - 1];
    }

    // At most eight bytes are folded, so the value fits the C's `uint64_t` accumulator.
    FoldFitsUint64([src[0] % 64] + src[1..srcIndex]);
    assert accumulator < UINT64_LIMIT;

    var yearHighBits := YearHighBits[magnitude];
    var yearEncoded := accumulator % Pow2(yearHighBits);
    accumulator := Shr(accumulator, yearHighBits);
    var month := accumulator % Pow2(SIZE_MONTH);
    accumulator := Shr(accumulator, SIZE_MONTH);
    var day := accumulator % Pow2(SIZE_DAY);
    accumulator := Shr(accumulator, SIZE_DAY);
    var hour := accumulator % Pow2(SIZE_HOUR);
    accumulator := Shr(accumulator, SIZE_HOUR);
    var minute := accumulator % Pow2(SIZE_MINUTE);
    accumulator := Shr(accumulator, SIZE_MINUTE);
    var second := accumulator % Pow2(SIZE_SECOND);
    accumulator := Shr(accumulator, SIZE_SECOND);
    var nanosecond := accumulator * SubsecMultipliers[magnitude];

    var (yearDecoded, decodedGroupCount) := gc.decode(yearEncoded, src[srcIndex..]);
    date := Some(Date(DecodeYear(yearDecoded), month, day, hour, minute, second, nanosecond));
    r := srcIndex + decodedGroupCount;
    assert src[..][1..srcIndexEnd] == src[1..srcIndexEnd];
  }
}
