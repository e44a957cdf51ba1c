/**
 * Whole-codec properties: what decoding gives back from what the encoder
 * writes, under stated assumptions about the external group routines.
 */
module CodecProofs {
  import opened Arith
  import opened Bytes
  import opened Groups
  import opened CDate

  lemma FieldWidths()
    ensures Pow2(SIZE_MONTH) == 16 && Pow2(SIZE_DAY) == 32 && Pow2(SIZE_HOUR) == 32
    ensures Pow2(SIZE_MINUTE) == 64 && Pow2(SIZE_SECOND) == 64
  {
    assert Pow2(6) == 64;
  }

  /** When the date's fields fit their widths, the encoder's base block keeps them apart. */
  lemma BaseBlockOfFits(d: Date)
    requires Representable(d) && Int32(d.year - YEAR_BIAS) && FitsFields(d)
    ensures FieldsFit(BaseBlockOf(d))
  {
    FieldWidths();
    MagnitudeIsLeastExact(d.nanosecond);
  }

  /** The high part kept in the base block and the low groups put the encoded year back together. */
  lemma YearSplit(encodedYear: nat, c: nat)
    ensures DropGroups(encodedYear, c) * Pow2(BITS_PER_YEAR_GROUP * c)
            + encodedYear % Pow2(BITS_PER_YEAR_GROUP * c) == encodedYear
  {
    ShrIsDiv(encodedYear, BITS_PER_YEAR_GROUP * c);
  }

  /**
   * Decoding a written base block followed by a non-empty tail gives the
   * block's fields and hands the tail, preloaded with the high year bits,
   * to the group decoder.
   */
  lemma DecodeBaseBlock(b: BaseBlock, tail: seq<byte>, gc: GroupCoder)
    requires FieldsFit(b) && |tail| >= 1
    ensures var n := BaseSizes[b.magnitude];
      var (encodedYear, count) := gc.decode(b.yearHigh, tail);
      DecodeOf(BigEndian(Accumulator(b), n) + tail, gc) == Decoded(UnpackedDate(b.magnitude, b, encodedYear), n + count)
  {
    var n := BaseSizes[b.magnitude];
    var bytes := BigEndian(Accumulator(b), n);
    var src := bytes + tail;
    BaseBlockRoundTrip(b);
    assert src[0] == bytes[0];
    assert src[1..n] == bytes[1..];
    assert src[n..] == tail;
  }

  /** The group encoder writes the low year bits as exactly the encoder's year group count of groups. */
  ghost predicate WritesAllGroups(d: Date, gc: GroupCoder, dstLength: nat)
    requires Representable(d) && Int32(d.year - YEAR_BIAS)
    requires EncodedLength(d) <= dstLength
  {
    var m := SubsecondMagnitude(d.nanosecond);
    var c := YearGroupCount(EncodeYear(d.year), m);
    gc.encode(LowYear(d), dstLength - BaseSizes[m]) == Groups.Encode(LowYear(d), c)
  }

  /** The group decoder, preloaded with the high year bits, folds the counted groups back into the encoded year. */
  lemma GroupsRestoreYear(d: Date, gc: GroupCoder, rest: seq<byte>)
    requires Representable(d) && Int32(d.year - YEAR_BIAS) && FoldsGroups(gc)
    ensures var c := YearGroupCount(EncodeYear(d.year), SubsecondMagnitude(d.nanosecond));
      gc.decode(BaseBlockOf(d).yearHigh, Groups.Encode(LowYear(d), c) + rest) == (EncodeYear(d.year), c as int)
  {
    var encodedYear := EncodeYear(d.year);
    var c := YearGroupCount(encodedYear, SubsecondMagnitude(d.nanosecond));
    var high := BaseBlockOf(d).yearHigh;
    DecodeEncode(high, LowYear(d), c, rest);
    YearSplit(encodedYear, c);
    assert high * Pow2(BITS_PER_YEAR_GROUP * c) + LowYear(d) == encodedYear;
  }

  /**
   * Decoding what the encoder wrote, followed by anything, gives back the
   * date and the encoded length, provided the group encoder writes every
   * group the size computation counted and the group decoder folds them in.
   * The bytes written are then exactly as many as the encoded size.
   */
  lemma EncodeDecode(d: Date, gc: GroupCoder, dstLength: nat, rest: seq<byte>)
    requires Representable(d) && Int32(d.year - YEAR_BIAS) && FitsFields(d)
    requires EncodedLength(d) <= dstLength
    requires WritesAllGroups(d, gc, dstLength) && FoldsGroups(gc)
    ensures |EncodedBytes(d, gc, dstLength)| == EncodedLength(d)
    ensures DecodeOf(EncodedBytes(d, gc, dstLength) + rest, gc) == Decoded(d, EncodedLength(d))
  {
    EncodedBytesLength(d, gc, dstLength);
    DecodeEncodedBytes(d, gc, dstLength, rest);
  }

  /** The decoding half of the round trip. */
  lemma DecodeEncodedBytes(d: Date, gc: GroupCoder, dstLength: nat, rest: seq<byte>)
    requires Representable(d) && Int32(d.year - YEAR_BIAS) && FitsFields(d)
    requires EncodedLength(d) <= dstLength
    requires WritesAllGroups(d, gc, dstLength) && FoldsGroups(gc)
    ensures DecodeOf(EncodedBytes(d, gc, dstLength) + rest, gc) == Decoded(d, EncodedLength(d))
  {
    var m := SubsecondMagnitude(d.nanosecond);
    var c := YearGroupCount(EncodeYear(d.year), m);
    var n := BaseSizes[m];
    var b := BaseBlockOf(d);
    var tail := Groups.Encode(LowYear(d), c) + rest;
    assert EncodedBytes(d, gc, dstLength) + rest == BigEndian(Accumulator(b), n) + tail;
    BaseBlockOfFits(d);
    DecodeBaseBlock(b, tail, gc);
    GroupsRestoreYear(d, gc, rest);
    assert b.subsecond * SubsecMultipliers[m] == d.nanosecond by {
      MagnitudeIsLeastExact(d.nanosecond);
    }
  }

  /** A group encoder that writes the counted groups makes the bytes written as many as the encoded size. */
  lemma EncodedBytesLength(d: Date, gc: GroupCoder, dstLength: nat)
    requires Representable(d) && Int32(d.year - YEAR_BIAS)
    requires EncodedLength(d) <= dstLength && WritesAllGroups(d, gc, dstLength)
    ensures |EncodedBytes(d, gc, dstLength)| == EncodedLength(d)
  {
  }

  /**
   * A group encoder that writes the fewest groups writes all of them when
   * the base block holds no high year bits: the top counted group is then
   * non-zero.
   */
  lemma MinimalWriterWritesAllGroups(d: Date, gc: GroupCoder, dstLength: nat)
    requires Representable(d) && Int32(d.year - YEAR_BIAS)
    requires EncodedLength(d) <= dstLength && EmitsMinimalGroups(gc)
    requires BaseBlockOf(d).yearHigh == 0
    ensures WritesAllGroups(d, gc, dstLength)
  {
    var m := SubsecondMagnitude(d.nanosecond);
    var encodedYear := EncodeYear(d.year);
    var c := YearGroupCount(encodedYear, m);
    ShrZeroIff(encodedYear, BITS_PER_YEAR_GROUP * c);
    DivModUnique(encodedYear, Pow2(BITS_PER_YEAR_GROUP * c), 0, encodedYear);
    assert LowYear(d) == encodedYear;
    if c > 1 {
      ReservedFieldAtMost64(m);
      assert DropGroups(encodedYear, c - 1) >= 1;
      ShrZeroIff(encodedYear, BITS_PER_YEAR_GROUP * (c - 1));
    }
    MinGroupsUnique(LowYear(d), c);
  }

  /**
   * A group encoder that writes the fewest groups writes exactly the counted
   * groups if and only if the low part of the encoded year needs all of them.
   */
  lemma MinimalWriterExactly(d: Date, gc: GroupCoder, dstLength: nat)
    requires Representable(d) && Int32(d.year - YEAR_BIAS)
    requires EncodedLength(d) <= dstLength && EmitsMinimalGroups(gc)
    ensures WritesAllGroups(d, gc, dstLength)
            <==> MinGroups(LowYear(d)) == YearGroupCount(EncodeYear(d.year), SubsecondMagnitude(d.nanosecond))
  {
    var m := SubsecondMagnitude(d.nanosecond);
    var c := YearGroupCount(EncodeYear(d.year), m);
    var low := LowYear(d);
    MinGroupsAtMost(low, c);
    var k := MinGroups(low);
    assert gc.encode(low, dstLength - BaseSizes[m]) == Groups.Encode(low, k);
    if k != c {
      assert |Groups.Encode(low, k)| != |Groups.Encode(low, c)|;
    }
  }

  /** With a single counted group, a group encoder that writes the fewest groups writes it. */
  lemma MinimalWriterOneGroup(d: Date, gc: GroupCoder, dstLength: nat)
    requires Representable(d) && Int32(d.year - YEAR_BIAS)
    requires EncodedLength(d) <= dstLength && EmitsMinimalGroups(gc)
    requires YearGroupCount(EncodeYear(d.year), SubsecondMagnitude(d.nanosecond)) == 1
    ensures WritesAllGroups(d, gc, dstLength)
  {
    MinGroupsAtMost(LowYear(d), 1);
    MinimalWriterExactly(d, gc, dstLength);
  }

  lemma Pow2Fourteen()
    ensures Pow2(BITS_PER_YEAR_GROUP * 1) == 128
    ensures Pow2(BITS_PER_YEAR_GROUP * 2) == 16384
  {
    assert Pow2(7) == 128;
    Pow2Add(7, 7);
  }

  /** The encoded year 16384 at magnitude 0 takes two groups, leaving the high bit 1 and a low part of 0. */
  lemma SplitYear16384()
    ensures YearGroupCount(16384, 0) == 2
    ensures DropGroups(16384, 2) == 1
    ensures 16384 % Pow2(BITS_PER_YEAR_GROUP * 2) == 0
  {
    Pow2Fourteen();
    assert Pow2(YearHighBits[0]) == 16;
    ShrIsDiv(16384, BITS_PER_YEAR_GROUP * 1);
    ShrIsDiv(16384, BITS_PER_YEAR_GROUP * 2);
    assert DropGroups(16384, 1) == 128;
    YearGroupCountUnique(16384, 0, 2);
  }

  /** How the encoder lays out the year 10192 with no sub-second part. */
  lemma Year10192Layout()
    ensures var d := Date(10192, 1, 1, 0, 0, 0, 0);
      Representable(d) && Int32(d.year - YEAR_BIAS) && FitsFields(d)
      && SubsecondMagnitude(d.nanosecond) == 0
      && EncodedLength(d) == 6
      && LowYear(d) == 0
      && BaseBlockOf(d) == BaseBlock(0, 0, 0, 0, 0, 1, 1, 1)
  {
    var d := Date(10192, 1, 1, 0, 0, 0, 0);
    assert SubsecondMagnitude(0) == 0;
    assert EncodeYear(d.year) == 16384;
    SplitYear16384();
  }

  /** What the encoder writes for the year 10192 with a group encoder that writes the fewest groups. */
  lemma Year10192Bytes(gc: GroupCoder, dstLength: nat)
    requires EmitsMinimalGroups(gc) && dstLength >= 6
    ensures Representable(Date(10192, 1, 1, 0, 0, 0, 0)) && Int32(10192 - YEAR_BIAS)
    ensures EncodedLength(Date(10192, 1, 1, 0, 0, 0, 0)) == 6
    ensures EncodedBytes(Date(10192, 1, 1, 0, 0, 0, 0), gc, dstLength)
            == BigEndian(Accumulator(BaseBlock(0, 0, 0, 0, 0, 1, 1, 1)), 4) + [0]
  {
    Year10192Layout();
    assert MinGroups(0) == 1;
    assert gc.encode(0, dstLength - 4) == [0];
  }

  /** A single zero group shifted into the preloaded high bit 1 gives 128. */
  lemma ZeroGroupAfterHighBit(gc: GroupCoder, rest: seq<byte>)
    requires FoldsGroups(gc)
    ensures Groups.Decode(1, [0] + rest) == Some((128, 1))
    ensures gc.decode(1, [0] + rest) == (128, 1)
  {
    assert ([0] + rest)[0] == 0;
  }

  /** The base block of the year 10192 followed by one zero group decodes to the year 2064. */
  lemma Year10192Decodes(gc: GroupCoder, rest: seq<byte>)
    requires FoldsGroups(gc)
    ensures DecodeOf(BigEndian(Accumulator(BaseBlock(0, 0, 0, 0, 0, 1, 1, 1)), 4) + ([0] + rest), gc)
            == Decoded(Date(2064, 1, 1, 0, 0, 0, 0), 5)
  {
    var b := BaseBlock(0, 0, 0, 0, 0, 1, 1, 1);
    assert FieldsFit(b) by {
      FieldWidths();
      assert Pow2(YearHighBits[0]) == 16;
    }
    DecodeBaseBlock(b, [0] + rest, gc);
    ZeroGroupAfterHighBit(gc, rest);
    assert DecodeYear(128) == 2064;
  }

  /**
   * With a group encoder that writes the fewest groups, the year 10192 does
   * not survive: its encoded year 16384 is counted as two groups, the base
   * block keeps the high bit 1, and the all-zero low group is written as a
   * single byte. The size computation says 6 bytes, 5 are written, and
   * decoding gives the year 2064.
   */
  lemma MinimalWriterLosesYear10192(gc: GroupCoder, dstLength: nat, rest: seq<byte>)
    requires EmitsMinimalGroups(gc) && FoldsGroups(gc) && dstLength >= 6
    ensures var d := Date(10192, 1, 1, 0, 0, 0, 0);
      EncodedLength(d) == 6
      && |EncodedBytes(d, gc, dstLength)| == 5
      && DecodeOf(EncodedBytes(d, gc, dstLength) + rest, gc) == Decoded(Date(2064, 1, 1, 0, 0, 0, 0), 5)
  {
    var d := Date(10192, 1, 1, 0, 0, 0, 0);
    var b := BaseBlock(0, 0, 0, 0, 0, 1, 1, 1);
    Year10192Bytes(gc, dstLength);
    assert EncodedBytes(d, gc, dstLength) + rest == BigEndian(Accumulator(b), 4) + ([0] + rest);
    Year10192Decodes(gc, rest);
  }
}
