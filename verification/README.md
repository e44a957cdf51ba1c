# cdate codec model

This project is a Dafny model of the `cdate` codec in
`reference-implementation/src/library.c`. The codec stores one date-time
value as a compact byte string. The value holds year, month, day, hour,
minute, second and nanosecond, with no timezone. The model covers the
three public operations and the helpers they use:

- `cdate_encoded_size` computes the encoded length.
- `cdate_encode` writes the encoding into a caller's buffer.
- `cdate_decode` reads it back.

The encoding has two parts:

1. A fixed-size base block, written most significant byte first. From the
   top it holds the 2-bit sub-second magnitude, the sub-second value
   (10 bits per magnitude step), then second, minute, hour, day, month, and
   a reserved field for the high bits of the encoded year.
2. 7-bit groups that carry the low bits of the encoded year. The year is
   first remapped with ZigZag around the bias year 2000.

Modules:

- `Arith` (`arith.dfy`): C shifts and masks as division and remainder by
  powers of two. `Shr` is `>>` on unsigned values.
- `Bytes` (`bytes.dfy`): writing a value most significant byte first, and
  folding bytes back with shift-and-or.
- `Groups` (`groups.dfy`): the 7-bit group format, continuation flag in the
  top bit, most significant group first. The codec delegates this format
  to the external routines `rvlq_encode_32` and `rvlq_decode_32`. Those
  routines are parameters here (`GroupCoder`), and three predicates state
  what is assumed of them:
  - `StaysWithin`: the encoder never writes past the room it is given.
  - `EmitsMinimalGroups`: the encoder writes the fewest groups.
  - `FoldsGroups`: the decoder shifts the groups into the value it already
    holds, whenever the result fits the 32-bit `year_encoded`.
- `CDate` (`cdate.dfy`): the tables, the helpers, and the three operations.
  - `cdate_encode` and `cdate_decode` are methods over arrays. Each has a
    specification function, `EncodedBytes` and `DecodeOf`, that its
    `ensures` ties it to.
  - `get_year_group_count` is a method with the source's loop. It is proved
    to compute `YearGroupCount`, the least group count whose remaining high
    bits fit the reserved field.
- `CodecProofs` (`roundtrip.dfy`): the round trip from encoding to decoding,
  and the condition it needs.

The round trip needs one more thing of the group encoder: it must write
exactly the number of groups that `get_year_group_count` counted. For a
group encoder that writes the fewest groups, `MinimalWriterExactly` states
when this holds: exactly when the fewest groups for the low part of the
encoded year equal the counted groups. Two cases are proved to meet it:

- `MinimalWriterWritesAllGroups`: the reserved field holds 0.
- `MinimalWriterOneGroup`: the count is 1. With no sub-second part these
  are exactly the years 976 to 3023 (`OneGroupYears`).

When the two numbers differ, the round trip breaks.
`MinimalWriterLosesYear10192` gives such an input:

- The year 10192 with no sub-second part has the encoded year 16384.
- 16384 is counted as two groups, and the reserved field keeps the high bit 1.
- The low part 0 is written as a single byte.
- The encoded size says 6 bytes, but only 5 are written.
- Decoding gives the year 2064.

`EncodeDecode` therefore takes the exact-count behaviour as the premise
`WritesAllGroups`.

## Model

| member | source | states |
|---|---|---|
| CDate.SubsecondMagnitude | reference-implementation/src/library.c:33-48 | the magnitude is at most 3; it is 0 iff the nanosecond is 0, 3 iff it is not a multiple of 1000, 2 iff it is a multiple of 1000 but not of 1000000, and 1 iff it is a non-zero multiple of 1000000 |
| CDate.MagnitudeIsLeastExact | reference-implementation/src/library.c:143-159 | for a nanosecond up to 999999999, the quotient by the selected magnitude's multiplier fits the 10*m-bit field and multiplies back to the nanosecond exactly, and no smaller magnitude does both |
| CDate.ZigZagEncode | reference-implementation/src/library.c:50-53 | an int32 is remapped below 2^32, to an even number iff it is non-negative, and decoding gives it back |
| CDate.ZigZagDecode | reference-implementation/src/library.c:55-58 | a value below 2^32 decodes to an int32, which is non-negative iff the value is even |
| CDate.ZigZagDecodeInverse | reference-implementation/src/library.c:50-58 | every value below 2^32 is the remapping of what it decodes to, so the remapping is a bijection onto the 32-bit range |
| CDate.EncodeYear | reference-implementation/src/library.c:60-68 | when the year and the year minus 2000 are int32, the encoded year is below 2^32 and decodes back to the year |
| CDate.BaseByteCount | reference-implementation/src/library.c:70-81 | the computed base size equals the table entry (4, 5, 6 or 8), and the summed field widths are exactly 8 times it |
| CDate.YearGroupCount | reference-implementation/src/library.c:83-106 | the count is at least 1, the encoded year shifted right by 7 per group fits the reserved field, and no smaller count of at least 1 fits |
| CDate.YearGroupCountUnique | reference-implementation/src/library.c:99-105 | any count with those three properties is the year group count |
| CDate.YearGroupCountBound | reference-implementation/src/library.c:144-145 | a 32-bit encoded year needs at most 5 groups, and one below 2^28 at most 4 |
| CDate.OneGroupYears | reference-implementation/src/library.c:83-106 | with no sub-second part, the year group count is 1 if and only if the year lies between 976 and 3023 |
| CDate.NearYearsFourGroups | reference-implementation/src/library.c:60-68 | every year within 2^27 of 2000 has an encoded year below 2^28, so at most four year groups, which meets the group count that `Encode` requires |
| CDate.GetYearGroupCount | reference-implementation/src/library.c:83-106 | the loop of shifts and the final reserved-field test return exactly the least fitting count |
| CDate.EncodedSize | reference-implementation/src/library.c:119-127 | the encoded size is the base size plus the year group count |
| CDate.AccumulatorLayout | reference-implementation/src/library.c:158-165 | with fields that fit their widths, the accumulator is the magnitude above the packed fields, and the packed fields stay below 2^(base bits - 2) |
| CDate.AccumulatorParts | reference-implementation/src/library.c:158-176 | the accumulator fits the base block's bytes; its top two bits are the magnitude and the rest are the packed fields |
| CDate.SplitPack | reference-implementation/src/library.c:220-235 | the decoder's masks and shifts, lowest field first, give back every packed field |
| CDate.BaseBlockRoundTrip | reference-implementation/src/library.c:191-235 | the first written byte shifted right by 6 is the magnitude, and clearing those bits and folding the bytes back gives every base-block field, the high year bits included |
| CDate.PackAccumulator | reference-implementation/src/library.c:158-165 | the shifts and adds, from the magnitude down to the high year bits, give the accumulator of the date's base block, whose fields `AccumulatorLayout` and `BaseBlockRoundTrip` separate again |
| CDate.WriteBaseBlock | reference-implementation/src/library.c:171-176 | the byte loop writes the low n bytes of the accumulator most significant first, and leaves the rest of the buffer alone |
| CDate.WriteEncoding | reference-implementation/src/library.c:171-179 | the buffer starts with the low n bytes of the accumulator, most significant first, followed by the group encoder's bytes; the offset returned is just past them and fits the buffer, and the rest of the buffer is unchanged |
| CDate.WriteGroups | reference-implementation/src/library.c:179 | the group encoder's bytes are placed at the offset within the room left, the new offset is just past them, and the bytes before and after are unchanged |
| CDate.Encode | reference-implementation/src/library.c:129-181 | returns -1 and changes nothing when the encoded size exceeds the buffer, whatever the year group count; otherwise the bytes written are the base block followed by the group encoder's bytes, the count returned is their number, and the rest of the buffer is unchanged |
| CDate.Decode | reference-implementation/src/library.c:183-241 | no date and -1 exactly when the source is empty or does not extend past the base block its first byte announces; otherwise the fields unpacked from the base block, the year from the group decoder, and the base size plus the decoder's unchecked count |
| CDate.FoldFitsUint64 | reference-implementation/src/library.c:210-218 | folding at most eight bytes gives a value below 2^64, so the decoder's `uint64_t` accumulator never wraps |
| Bytes.ValueBigEndian | reference-implementation/src/library.c:212-218 | folding the bytes written most significant first back with shift-and-or gives the value again |
| Bytes.TopTwoBits | reference-implementation/src/library.c:198-199 | masking the first byte to its low 6 bits leaves the value modulo 2^(8n-2), and the first byte shifted right by 6 is the quotient |
| Groups.Encode | reference-implementation/src/library.c:179 | n groups of a value below 2^(7n) are n bytes, every byte but the last with the continuation flag set |
| Groups.Decode | reference-implementation/src/library.c:237 | a successful decode consumes at least one byte and no more than the source, stops at the first byte without the continuation flag, and passes over only flagged bytes before it |
| Groups.MinGroups | reference-implementation/src/library.c:179 | the fewest groups that hold a value: at least 1, enough for the value, and one fewer would not be |
| Groups.MinGroupsAtMost | reference-implementation/src/library.c:179 | any number of groups that holds a value is at least the fewest |
| Groups.MinGroupsUnique | reference-implementation/src/library.c:179 | any count with those bounds is the fewest groups |
| Groups.DecodeEncode | reference-implementation/src/library.c:223-237 | decoding n groups of a value into a preloaded value appends the value below it and consumes n bytes, whatever follows |
| CodecProofs.DecodeBaseBlock | reference-implementation/src/library.c:191-237 | decoding a written base block followed by a non-empty tail gives the block's fields and hands the tail, preloaded with the high year bits, to the group decoder |
| CodecProofs.GroupsRestoreYear | reference-implementation/src/library.c:165-179 | the high bits kept in the base block and the counted low groups fold back into the encoded year, with the group count as the decoder's result |
| CodecProofs.EncodeDecode | reference-implementation/src/library.c:129-241 | for a date whose fields fit their widths, when the group encoder writes the counted groups, the bytes written are exactly as many as the encoded size, and decoding them, followed by any bytes, gives back the date and the encoded size |
| CodecProofs.MinimalWriterWritesAllGroups | reference-implementation/src/library.c:165-179 | a group encoder that writes the fewest groups writes exactly the counted groups when the reserved year field holds 0 |
| CodecProofs.MinimalWriterExactly | reference-implementation/src/library.c:83-179 | with a fewest-groups encoder and room for the encoded size, the counted groups are written if and only if the fewest groups for the low year part equal the year group count |
| CodecProofs.MinimalWriterOneGroup | reference-implementation/src/library.c:83-179 | a fewest-groups encoder writes all counted groups whenever the year group count is 1 |
| CodecProofs.MinimalWriterLosesYear10192 | reference-implementation/src/library.c:83-179 | with a fewest-groups encoder, the year 10192 has an encoded size of 6 but 5 bytes are written, and they decode to the year 2064 |

## Left out

- `rvlq_encode_32` and `rvlq_decode_32` come from an external vlq library that is not part of this model. They are the `GroupCoder` parameter, and three predicates state the behaviour assumed of them. A failure return from either routine is not modelled: the encoder's bytes are copied as given, and the decoder's count is passed through unchecked, as the code does.
- `cdate_version` and the `PROJECT_VERSION` quoting macros are left out; they only supply a version string.
- All `KSLOG_*` tracing is left out; it only logs.
- The timezone-bearing API declared in `include/compact_time/compact_time.h` has no implementation to model.
- CDate.ZigZagEncode: in C, `value << 1` on an `int32` that is negative or at least 2^30 is undefined (signed overflow). The model takes the two's-complement result compilers give: a negative value maps to `-2v-1` and any other value to `2v`, read as unsigned.
- CDate.Encode: requires `year - 2000` to be an `int32`, because the subtraction at line 62 would otherwise overflow. When the encoded size fits the buffer, it also requires a year group count of at most 4: past the size check at lines 138-141, `1 << year_group_bit_count` at line 145 is undefined for 35 bits. `NearYearsFourGroups` shows that every year within 2^27 of 2000 meets this.
- CDate.Encode: the 64-bit accumulator is an unbounded integer. Only its low base-size bytes are written, and 64-bit wrap-around would not change those bytes. As a result, fields that overflow their widths are packed by the same arithmetic.
- `decode_year`: `zigzag_decode(x) + 2000` is not bounded to `int32`. The group decoder's value is a natural number, and `FoldsGroups` says nothing about it when the folded groups exceed 32 bits, so what `rvlq_decode_32` stores in that case is not modelled.
- CDate.Decode: the decoded date is returned as a value rather than written through the `cdate*` pointer. On failure no date is produced, whereas the C leaves `*date` untouched.
- Buffer lengths are the arrays' lengths, so a negative `dst_length` or `src_length` is not modelled.
- The header's comments say that failure returns 0. The code returns -1, and the model follows the code.
- CodecProofs.EncodeDecode: the round trip is stated only for group encoders that write exactly the counted groups (`WritesAllGroups`), and for group decoders that fold correctly whenever the result fits 32 bits (`FoldsGroups`). `MinimalWriterLosesYear10192` shows that it fails for a fewest-groups encoder. It also requires the calendar fields to fit their bit widths, since wider values overlap in the base block.
