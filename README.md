# fast_generation: the PostgreSQL binary encoders, in Dafny

`fast_generation` loads synthetic sensor readings into the PostgreSQL table `metrics`
(`created timestamptz, sensor_id int, temperature numeric`). Its core is a hand-written
encoder for PostgreSQL's binary COPY format. This project models that core and proves
properties of it:

- `numeric_to_postgres_binary` (module `Numeric`, `numeric.dfy`) turns a temperature into
  the `numeric` send format. The output is four big-endian int16 header words (ndigits,
  weight, sign, dscale) followed by base-10000 digit groups. The integer part is
  left-padded with zeros to a group boundary, and the padded text is cut into chunks of
  four from the left.
- `datetime_to_postgres_binary` and `POSTGRES_EPOCH` (module `Timestamp`, `timestamp.dfy`)
  turn an instant into signed 64-bit microseconds since 2000-01-01T00:00:00Z.
- `generate_buffer` (module `CopyBinary`, `copy_binary.dfy`) builds the COPY stream:
  - the 11-byte signature and two zero int32 words;
  - per row, a field count of 3 and three length-prefixed fields;
  - the trailer -1.
- The sensor-id walk of `generate_batch` and the 100 ms tick of `generate_data` (module
  `Generator`, `generator.dfy`).
- Big-endian two's-complement writers and readers (module `BigEndian`, `bigendian.dfy`).
  They stand in for `byteorder`'s `write_i16/i32/i64::<BigEndian>`.

Modelling choices:

- Instants are integer microseconds since the Unix epoch.
- A temperature is a `Decimal`: the float's sign bit, plus the digits of its magnitude
  before and after the decimal point. This is exactly what `numeric_to_postgres_binary`
  reads from `abs_value.to_string()`.
- The loops of the source are methods with loop invariants. Each method is proved equal
  to a specification function:
  - `EncodeNumeric`, `CollectGroups`, `ChunkValue` and `WriteGroups` against
    `SerializeNumeric(ToWire(d))` and `Groups`;
  - `GenerateBuffer` and `WriteRecord` against `CopyStream`;
  - `GenerateBatch` and `GenerateData` against `BatchRows`.
- The partners of the writers are readers written independently of them:
  `SignedValue`, `DecodeNumeric`, `ParseStream` and `DecodeRecord`. Each comes with a
  round-trip lemma.
- The meaning of a numeric value is `WireValue`, which is how a reader of the format
  weighs the groups (Σ digit·10000^(weight−i)). `NumericRoundTrip` proves that this
  equals the decimal the encoder was given.

Behaviour of the code worth knowing:

- A reading rounded to 23.50 reaches the encoder as the `f64` 23.5. Its text `"23.5"`
  gives dscale 1 and groups `[23, 5000]` (`Numeric.ExampleTwentyThreeAndAHalf`), not
  dscale 2.
- The sensor ids do not cycle through [1, 32]. `(current + i) % 32 + 1` with Rust's
  truncating `%` gives 2, 4, 7, 11, 16, 22, 29, 5, … from 1
  (`Generator.SensorIdsFromOne`). For a negative `sensor_id` that is not a multiple of 32,
  the first ids can be zero or negative (`Generator.SensorIdsFromNegative`: from -31 the
  seventh id is -3, while from -32 the ids are 1, 3, … as from 0,
  `Generator.SensorIdsFromMinusThirtyTwo`); from the eighth row of a batch on they are in [1, 32]
  (`Generator.SensorIdsPositiveFromEighthRow`).
- `generate_batch` returns the `sensor_id` it was given (src/main.rs:98). As a result,
  every batch of `generate_data` walks from sensor id 1 again.

## Model

| member | source | states |
|---|---|---|
| BigEndian.Int16RoundTrip | src/main.rs:168-174 | reading back the two bytes `write_i16::<BigEndian>` writes gives the value written, for every int16 |
| BigEndian.Int32RoundTrip | src/main.rs:188-189 | reading back the four bytes of `write_i32::<BigEndian>` gives the value written, for every int32 |
| BigEndian.Int64RoundTrip | src/main.rs:197 | reading back the eight bytes of `write_i64::<BigEndian>` gives the value written, for every int64 |
| BigEndian.Int16ValueRange | src/main.rs:168-174 | any two bytes read as a signed int16 lie in the int16 range (also `Int32ValueRange`, `Int64ValueRange`) |
| BigEndian.UnsignedValueConcat | src/main.rs:196-197 | concatenating big-endian words shifts the value of the first by the width of the second |
| Numeric.Weight | src/main.rs:141 | the weight `(len − 1) / 4` is the number of whole 4-digit groups before the point, less one: 4·w < len ≤ 4·(w+1) |
| Numeric.Padding | src/main.rs:142-146 | the padding is under 4 and brings the integer length to a multiple of 4 |
| Numeric.PaddedNumber | src/main.rs:147-152 | the padded text is zeros, then the integer digits, then the fraction digits; the integer part ends on a group boundary |
| Numeric.GroupValue | src/main.rs:158-162 | a chunk's group lies in [0, 9999], and a short trailing chunk is worth what it would be right-padded with zeros (v·10^len = digits·10000) |
| Numeric.Groups | src/main.rs:154-164 | cutting into chunks of four gives ⌈len/4⌉ groups, each in [0, 9999] |
| Numeric.GroupsDenote | src/main.rs:154-164 | the groups, read as one base-10000 integer, are the digit string followed by the zeros that complete the last group |
| Numeric.ToWire | src/main.rs:124-178 | the sign is 0x4000 exactly when the input is negative; dscale is the number of fraction digits; the weight bounds the integer length; ndigits = ⌈(integer + padding + fraction)/4⌉; all fields are well formed |
| Numeric.PaddedValue | src/main.rs:147-152 | left-padding with zeros keeps the value: integer·10^len(fraction) + fraction |
| Numeric.GroupsMagnitudeOfWire | src/main.rs:141-164 | the groups weighed from the weight downwards equal integer·10^f + fraction, moved f places right of the point |
| Numeric.NumericRoundTrip | src/main.rs:124-178 | the value a reader gives the encoded numeric equals the input decimal, sign included |
| Numeric.SerializeRoundTrip | src/main.rs:168-175 | decoding the serialised bytes gives back exactly the header fields and groups written |
| Numeric.GroupsRoundTrip | src/main.rs:173-175 | decoding the group bytes gives back the groups |
| Numeric.NumericLayout | src/main.rs:168-175 | the output is 8 + 2·ndigits bytes: ndigits, weight, sign, dscale at offsets 0, 2, 4, 6, and group i at offset 8 + 2i |
| Numeric.ChunkValue | src/main.rs:157-163 | the per-digit accumulation `digit·10^(3−i)` computes the chunk's group value, in [0, 9999] |
| Numeric.CollectGroups | src/main.rs:154-164 | the chunking loop produces exactly the groups of the padded text |
| Numeric.WriteGroups | src/main.rs:173-175 | the writing loop appends each group as a big-endian int16, in order |
| Numeric.EncodeNumeric | src/main.rs:124-178 | the encoder's output is the serialisation of the wire value of its input |
| Numeric.ExampleTwentyThreeAndAHalf | src/main.rs:124-178 | 23.5 encodes as weight 0, sign 0, dscale 1, groups [23, 5000] |
| Numeric.ExampleNegative | src/main.rs:124-178 | -12.34 encodes as weight 0, sign 0x4000, dscale 2, groups [12, 3400] |
| Numeric.ExampleZero | src/main.rs:124-178 | 0 encodes as one zero group at weight 0; -0.0 keeps the negative sign flag |
| Timestamp.EpochIsStartOf2000 | src/main.rs:16-22 | the epoch constant is midnight UTC on 2000-01-01: 30 years after 1970, 7 of them leap years |
| Timestamp.DaysBeforeYearCount | src/main.rs:16-22 | from 1970 up to 2100, the days before a year are 365 per year plus one per leap year counted from 1972 |
| Timestamp.EncodeTimestamp | src/main.rs:180-183 | the result is an int64 and is negative exactly for instants before the epoch |
| Timestamp.TimestampRoundTrip | src/main.rs:180-183 | adding the epoch back recovers the instant (and `DecodeRoundTrip` the other way) |
| Timestamp.TimestampOfEpoch | src/main.rs:180-183 | the epoch maps to 0, and one day later maps to 86 400 000 000 |
| Timestamp.TimestampStep | src/main.rs:180-183 | one microsecond later maps to exactly one more |
| Timestamp.TimestampMonotonic | src/main.rs:180-183 | the encoding keeps differences and is strictly monotonic |
| CopyBinary.Header | src/main.rs:187-189 | the header is 19 bytes |
| CopyBinary.HeaderLayout | src/main.rs:187-189 | the signature sits at offset 0, then two zero int32 words (flags, header-extension length) |
| CopyBinary.RecordFields | src/main.rs:192-206 | a row becomes three fields that the stream can frame: int64 microseconds, int32 sensor id, the numeric bytes |
| CopyBinary.RecordLayout | src/main.rs:192-206 | a row's record byte by byte: count 3; length 8 and the micros; length 4 and the id; the numeric's length and bytes. It is 26 bytes plus the numeric's length |
| CopyBinary.WriteRecord | src/main.rs:191-207 | one iteration of the row loop appends exactly the row's record |
| CopyBinary.GenerateBuffer | src/main.rs:185-211 | the buffer is the header, each row's record in input order, and the trailer |
| CopyBinary.RowsBytesAreTuples | src/main.rs:190-207 | the row loop's output is the standard tuple encoding of the rows' records |
| CopyBinary.StreamFraming | src/main.rs:185-211 | the stream has at least 21 bytes, starts with the signature and 8 zero bytes, and ends with 0xFF 0xFF |
| CopyBinary.RowsBytesLength | src/main.rs:190-207 | the rows take 26 bytes each plus their numeric's length |
| CopyBinary.StreamLength | src/main.rs:185-211 | the stream length is 21 + Σ(26 + len(numeric_i)); an empty batch gives 21 bytes |
| CopyBinary.FieldsRoundTrip | src/main.rs:195-206 | length-prefixed fields parse back to the same payloads, leaving what follows untouched |
| CopyBinary.TuplesRoundTrip | src/main.rs:190-209 | encoded tuples followed by the trailer parse back to the same tuples |
| CopyBinary.TuplesStreamRoundTrip | src/main.rs:185-211 | a header, encoded tuples and the trailer parse back to the same tuples |
| CopyBinary.StreamRoundTrip | src/main.rs:185-211 | parsing the stream gives one record per row, in order |
| CopyBinary.RecordRoundTrip | src/main.rs:192-206 | a record decodes to the row's encoded timestamp, its sensor id and its numeric wire value |
| CopyBinary.RecordRecovered | src/main.rs:192-206 | a record decodes to the row's instant, sensor id and temperature value |
| CopyBinary.RowsRecovered | src/main.rs:185-211 | end to end: reading the stream back yields, per row and in order, the instant, the sensor id and the temperature value |
| Generator.RemT | src/main.rs:93 | Rust's `%`: the remainder has the dividend's sign and magnitude under the divisor, and is the dividend itself when that is already smaller |
| Generator.NextSensorId | src/main.rs:93 | one step gives an id in [-30, 32], in [1, 32] when `current + i` is non-negative, and `current + i + 1` when that sum is in (-32, 0) |
| Generator.SensorIdAfter | src/main.rs:90-95 | after the first row every id is in [-30, 32], and in [1, 32] for a non-negative starting id; the `i32` addition never overflows within a batch |
| Generator.SensorIdsSettle | src/main.rs:90-95 | the first id is at least -30 and, while `current + i` is negative, the id climbs by `i + 1` per row: the k-th id is positive or at least Triangle(k−1) + (k−1) − 30 |
| Generator.SensorIdsPositiveFromEighthRow | src/main.rs:90-95 | from the eighth row of a batch on, every id is in [1, 32], whatever the i32 starting id; the seventh can still be negative |
| Generator.SensorIdsFromOne | src/main.rs:90-95 | from 1 the walk is 2, 4, 7, 11, 16, 22, 29, 5 |
| Generator.SensorIdsFromNegative | src/main.rs:90-95 | from -31 the walk starts at -30 and reaches -3 at row 7 and 5 at row 8 |
| Generator.SensorIdsFromMinusThirtyTwo | src/main.rs:90-95 | a start of -32 or -64 gives first id 1, as `-32 % 32 == 0` in Rust; -32 then gives 3 |
| Generator.BatchRows | src/main.rs:91-97 | a batch has one row per reading, each stamped with the batch's instant, carrying its own reading, and row i carrying the id after i + 1 steps of the walk |
| Generator.BatchRowsValid | src/main.rs:88-99 | the rows of a batch satisfy what `generate_buffer` needs of its input |
| Generator.GenerateBatch | src/main.rs:88-99 | the batch has BATCH_SIZE rows following the sensor-id walk from `sensor_id`; every id is in [1, 32] for a non-negative `sensor_id`, and from the eighth row on for any; the returned id is the input `sensor_id` |
| Generator.GenerateData | src/main.rs:101-118 | batch k is stamped k+1 ticks of 100 ms after the start, carries tick number k+1, and walks its ids from 1 |

## Left out

- Database I/O is not modelled: the connection, `insert_to_postgres`,
  `insert_to_postgres_string`, `copy_to_postgres`, `ExecutionContext` (timing,
  `table_size`, `convert_bytes`, `Drop` reporting) and `main`. None of them is part of
  the encoding.
- `f64_to_decimal` and the float-to-text step `abs_value.to_string()` are left out. The
  model takes the resulting digit text as its input, so float formatting and rounding
  are outside it.
- Text that is not digits is excluded by `ValidDecimal`. The original accepts the
  `NaN` and `inf` renderings of a float without error: their letters all lie above
  `b'0'`, so `digit - b'0'` does not underflow. It silently sends meaningless groups,
  e.g. `"NaN"` pads to `"0NaN"` and goes out as the single group 3520, and `"inf"` as
  6374 with the float's sign flag. The model does not cover that output.
- The random temperature of `generate_batch` (`rng.gen_range` and the rounding to two
  places) is replaced by a parameter holding one reading per row.
- Numeric.ValidDecimal: integer and fraction lengths are limited to 32767. The `as i16`
  casts of the original would wrap for longer text, and no float's text comes near that
  length.
- Timestamp.EncodeTimestamp: instants are whole microseconds. chrono's nanosecond part
  and its truncation by `num_microseconds` are not modelled. The `unwrap` on an
  out-of-range difference is a precondition.
- Generator.GenerateData: `chrono` date arithmetic is integer microseconds, and overflow
  of `DateTime` is not modelled. The lazy iterator is a method that returns all the
  batches.
- CopyBinary.GenerateBuffer: writes to the in-memory `Cursor` cannot fail, so the
  `anyhow::Result` error path is not modelled.
- The reader side handles only what this writer emits. NULL fields (length -1), header
  extensions and non-zero flags are rejected rather than interpreted.
