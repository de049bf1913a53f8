/**
 * The binary COPY stream built by `generate_buffer` (PostgreSQL documentation,
 * "COPY — Binary Format": file header, tuples, file trailer) for rows of the
 * three-column `metrics` table, and a reader for the part of the format this
 * writer uses.
 */
module CopyBinary {
  import opened BigEndian
  import opened Numeric
  import opened Timestamp

  /** One row: (created, sensor_id, temperature); `created` in microseconds since the Unix epoch. */
  datatype Row = Row(created: int, sensorId: int, temperature: Decimal)

  /** A tuple as it travels: the payload of each field, in column order. */
  type Tuple = seq<seq<Byte>>

  /** A row read back from a stream: the three decoded columns. */
  datatype DecodedRow = DecodedRow(micros: int, sensorId: int, temperature: NumericWire)

  /** What the source's types guarantee of a row: an i32 sensor id, a finite temperature, an i64 timestamp offset. */
  predicate ValidRow(r: Row)
  {
    && IsInt64(r.created - POSTGRES_EPOCH)
    && IsInt32(r.sensorId)
    && ValidDecimal(r.temperature)
  }

  /** The 11-byte signature `PGCOPY\n\xff\r\n\0`. */
  const SIGNATURE: seq<Byte> := [0x50, 0x47, 0x43, 0x4F, 0x50, 0x59, 0x0A, 0xFF, 0x0D, 0x0A, 0x00]

  /** Fields per tuple of the `metrics` table. */
  const FIELD_COUNT: int := 3

  /** The header: signature, a zero flags field, a zero header-extension length. */
  function Header(): (h: seq<Byte>)
    ensures |h| == 19
  {
    SIGNATURE + Int32Bytes(0) + Int32Bytes(0)
  }

  /** The trailer: a field count of -1. */
  function Trailer(): (t: seq<Byte>)
    ensures |t| == 2
  {
    Int16Bytes(-1)
  }

  // ---------------------------------------------------------------------
  // Tuples

  /** Every field length fits the int32 length word. */
  predicate EncodableFields(fields: Tuple)
  {
    forall i :: 0 <= i < |fields| ==> IsInt32(|fields[i]|)
  }

  /** A field count that fits the int16 count word, and encodable fields. */
  predicate EncodableTuple(t: Tuple)
  {
    IsInt16(|t|) && EncodableFields(t)
  }

  /** Each field as an int32 length followed by exactly that many payload bytes. */
  function EncodeFields(fields: Tuple): (b: seq<Byte>)
    requires EncodableFields(fields)
  {
    if fields == [] then []
    else Int32Bytes(|fields[0]|) + fields[0] + EncodeFields(fields[1..])
  }

  /** A tuple: its int16 field count, then its fields. */
  function EncodeTuple(t: Tuple): (b: seq<Byte>)
    requires EncodableTuple(t)
  {
    Int16Bytes(|t|) + EncodeFields(t)
  }

  function EncodeTuples(ts: seq<Tuple>): (b: seq<Byte>)
    requires forall i :: 0 <= i < |ts| ==> EncodableTuple(ts[i])
  {
    if ts == [] then [] else EncodeTuple(ts[0]) + EncodeTuples(ts[1..])
  }

  lemma {:induction false} EncodeTuplesAppend(ts: seq<Tuple>, t: Tuple)
    requires forall i :: 0 <= i < |ts| ==> EncodableTuple(ts[i])
    requires EncodableTuple(t)
    ensures EncodeTuples(ts + [t]) == EncodeTuples(ts) + EncodeTuple(t)
  {
    if ts == [] {
      assert [t][1..] == [];
    } else {
      assert (ts + [t])[1..] == ts[1..] + [t];
      EncodeTuplesAppend(ts[1..], t);
    }
  }

  // ---------------------------------------------------------------------
  // Rows

  function NumericBytes(d: Decimal): (b: seq<Byte>)
    requires ValidDecimal(d)
    ensures IsInt32(|b|)
  {
    SerializeNumeric(ToWire(d))
  }

  /** The three fields of a row: int64 microseconds, int32 sensor id, numeric temperature. */
  function RecordFields(r: Row): (t: Tuple)
    requires ValidRow(r)
    ensures EncodableTuple(t) && |t| == FIELD_COUNT
  {
    [Int64Bytes(EncodeTimestamp(r.created)), Int32Bytes(r.sensorId), NumericBytes(r.temperature)]
  }

  function Records(rows: seq<Row>): (ts: seq<Tuple>)
    requires forall i :: 0 <= i < |rows| ==> ValidRow(rows[i])
    ensures |ts| == |rows|
    ensures forall i :: 0 <= i < |rows| ==> ts[i] == RecordFields(rows[i])
  {
    seq(|rows|, i requires 0 <= i < |rows| => RecordFields(rows[i]))
  }

  /** The records of `rows`, one tuple per row in input order. */
  function RowsBytes(rows: seq<Row>): (b: seq<Byte>)
    requires forall i :: 0 <= i < |rows| ==> ValidRow(rows[i])
  {
    if rows == [] then []
    else RowsBytes(rows[..|rows| - 1]) + EncodeTuple(RecordFields(rows[|rows| - 1]))
  }

  /** The whole stream: header, the records, trailer. */
  function CopyStream(rows: seq<Row>): (b: seq<Byte>)
    requires forall i :: 0 <= i < |rows| ==> ValidRow(rows[i])
  {
    Header() + RowsBytes(rows) + Trailer()
  }

  /** Dropping the last row drops the last tuple. */
  lemma RecordsSnoc(rows: seq<Row>)
    requires forall i :: 0 <= i < |rows| ==> ValidRow(rows[i])
    requires rows != []
    ensures Records(rows) == Records(rows[..|rows| - 1]) + [RecordFields(rows[|rows| - 1])]
  {
  }

  /** The records are the generic tuple encoding of `Records(rows)`. */
  lemma {:induction false} RowsBytesAreTuples(rows: seq<Row>)
    requires forall i :: 0 <= i < |rows| ==> ValidRow(rows[i])
    ensures RowsBytes(rows) == EncodeTuples(Records(rows))
  {
    if rows != [] {
      var init := rows[..|rows| - 1];
      var last := RecordFields(rows[|rows| - 1]);
      RowsBytesAreTuples(init);
      RecordsSnoc(rows);
      EncodeTuplesAppend(Records(init), last);
    }
  }

  /**
   * A row's record byte by byte: field count 3; length 8 and the int64
   * microseconds; length 4 and the int32 sensor id; the numeric length and
   * bytes.
   */
  lemma RecordLayout(r: Row)
    requires ValidRow(r)
    ensures var nb := NumericBytes(r.temperature);
            EncodeTuple(RecordFields(r))
            == Int16Bytes(3)
               + Int32Bytes(8) + Int64Bytes(EncodeTimestamp(r.created))
               + Int32Bytes(4) + Int32Bytes(r.sensorId)
               + Int32Bytes(|nb|) + nb
    ensures |EncodeTuple(RecordFields(r))| == 26 + |NumericBytes(r.temperature)|
  {
    var t := RecordFields(r);
    var t1: Tuple := t[1..];
    var t2: Tuple := t1[1..];
    var t3: Tuple := t2[1..];
    assert t3 == [];
    assert EncodeFields(t2) == Int32Bytes(|t2[0]|) + t2[0] + EncodeFields(t3);
    assert EncodeFields(t1) == Int32Bytes(|t1[0]|) + t1[0] + EncodeFields(t2);
    assert EncodeFields(t) == Int32Bytes(|t[0]|) + t[0] + EncodeFields(t1);
  }

  /** The loop step of `generate_buffer`: a buffer holding the first `i` records, plus record `i`, holds `i + 1`. */
  lemma RowsBytesExtend(rows: seq<Row>, i: nat, header: seq<Byte>, before: seq<Byte>, after: seq<Byte>)
    requires forall j :: 0 <= j < |rows| ==> ValidRow(rows[j])
    requires i < |rows|
    requires before == header + RowsBytes(rows[..i])
    requires after == before + EncodeTuple(RecordFields(rows[i]))
    ensures after == header + RowsBytes(rows[..i + 1])
  {
    assert rows[..i + 1][..i] == rows[..i];
    ConcatAssoc(header, RowsBytes(rows[..i]), EncodeTuple(RecordFields(rows[i])));
  }

  /** `generate_buffer`: header, then each row's record, then the trailer. */
  method GenerateBuffer(rows: seq<Row>) returns (buffer: seq<Byte>)
    requires forall i :: 0 <= i < |rows| ==> ValidRow(rows[i])
    ensures buffer == CopyStream(rows)
  {
    buffer := [];
    buffer := buffer + SIGNATURE;
    buffer := buffer + Int32Bytes(0);
    buffer := buffer + Int32Bytes(0);
    assert buffer == Header() + RowsBytes(rows[..0]);

    for i := 0 to |rows|
      invariant buffer == Header() + RowsBytes(rows[..i])
    {
      ghost var before := buffer;
      buffer := WriteRecord(buffer, rows[i]);
      RowsBytesExtend(rows, i, Header(), before, buffer);
    }

    buffer := buffer + Int16Bytes(-1);
    assert rows[..|rows|] == rows;
  }

  /**
   * The body of `generate_buffer`'s loop: appends one row's record, field
   * count first, then each column as its length word and its bytes.
   */
  method WriteRecord(buffer: seq<Byte>, row: Row) returns (out: seq<Byte>)
    requires ValidRow(row)
    ensures var nb := NumericBytes(row.temperature);
            out == buffer + (Int16Bytes(3)
                             + Int32Bytes(8) + Int64Bytes(EncodeTimestamp(row.created))
                             + Int32Bytes(4) + Int32Bytes(row.sensorId)
                             + Int32Bytes(|nb|) + nb)
    ensures out == buffer + EncodeTuple(RecordFields(row))
  {
    out := buffer + Int16Bytes(FIELD_COUNT);

    // created
    var micros := EncodeTimestamp(row.created);
    out := out + Int32Bytes(8);
    out := out + Int64Bytes(micros);

    // sensor_id
    out := out + Int32Bytes(4);
    out := out + Int32Bytes(row.sensorId);

    // temperature
    var numericBytes := EncodeNumeric(row.temperature);
    out := out + Int32Bytes(|numericBytes|);
    out := out + numericBytes;
    RecordLayout(row);
  }

  // ---------------------------------------------------------------------
  // Framing and length

  /** The header's three parts at their offsets. */
  lemma HeaderLayout()
    ensures Header()[..11] == SIGNATURE
    ensures Header()[11..15] == Int32Bytes(0) && Header()[15..19] == Int32Bytes(0)
    ensures Int32Bytes(0) == [0, 0, 0, 0]
  {
    Pow256Values();
  }

  /** The stream opens with the signature and eight zero bytes and closes with 0xFF 0xFF. */
  lemma StreamFraming(rows: seq<Row>)
    requires forall i :: 0 <= i < |rows| ==> ValidRow(rows[i])
    ensures var b := CopyStream(rows);
            && |b| >= 21
            && b[..11] == SIGNATURE
            && b[11..19] == [0, 0, 0, 0, 0, 0, 0, 0]
            && b[|b| - 2..] == [0xFF, 0xFF]
  {
    var b := CopyStream(rows);
    HeaderLayout();
    assert b[..19] == Header();
    assert b[|b| - 2..] == Trailer();
  }

  /** Bytes the rows add to the stream: per row, 26 bytes of framing and fixed fields, plus its numeric. */
  function RowsPayload(rows: seq<Row>): nat
    requires forall i :: 0 <= i < |rows| ==> ValidRow(rows[i])
  {
    if rows == [] then 0
    else
      var last := rows[|rows| - 1];
      assert ValidRow(last);
      RowsPayload(rows[..|rows| - 1]) + 26 + |NumericBytes(last.temperature)|
  }

  lemma {:induction false} RowsBytesLength(rows: seq<Row>)
    requires forall i :: 0 <= i < |rows| ==> ValidRow(rows[i])
    ensures |RowsBytes(rows)| == RowsPayload(rows)
  {
    if rows != [] {
      RecordLayout(rows[|rows| - 1]);
      RowsBytesLength(rows[..|rows| - 1]);
    }
  }

  /** Length: 19 header bytes, the rows, 2 trailer bytes; an empty batch is 21 bytes. */
  lemma StreamLength(rows: seq<Row>)
    requires forall i :: 0 <= i < |rows| ==> ValidRow(rows[i])
    ensures |CopyStream(rows)| == 21 + RowsPayload(rows)
    ensures rows == [] ==> |CopyStream(rows)| == 21
  {
    RowsBytesLength(rows);
  }

  // ---------------------------------------------------------------------
  // The reader

  /** Reads `n` length-prefixed fields; returns them and what follows. */
  function ParseFields(b: seq<Byte>, n: nat): (r: Option<(Tuple, seq<Byte>)>)
    ensures r.Some? ==> |r.value.0| == n && |r.value.1| <= |b|
    decreases n
  {
    if n == 0 then Some(([], b))
    else if |b| < 4 then None
    else
      var len := SignedValue(b[..4]);
      if len < 0 || |b| - 4 < len then None
      else
        match ParseFields(b[4 + len..], n - 1)
        case None => None
        case Some((fields, rest)) => Some(([b[4..4 + len]] + fields, rest))
  }

  /** Reads tuples up to the -1 trailer, which must end the input. */
  function ParseTuples(b: seq<Byte>): (r: Option<seq<Tuple>>)
    decreases |b|
  {
    if |b| < 2 then None
    else
      var count := SignedValue(b[..2]);
      if count == -1 then (if |b| == 2 then Some([]) else None)
      else if count < 0 then None
      else
        match ParseFields(b[2..], count)
        case None => None
        case Some((fields, rest)) =>
          match ParseTuples(rest)
          case None => None
          case Some(ts) => Some([fields] + ts)
  }

  /** Reads a stream with the signature, zero flags and no header extension. */
  function ParseStream(b: seq<Byte>): Option<seq<Tuple>>
  {
    if |b| < 19 || b[..11] != SIGNATURE || SignedValue(b[11..15]) != 0 || SignedValue(b[15..19]) != 0
    then None
    else ParseTuples(b[19..])
  }

  /** Reads the three columns of a `metrics` tuple. */
  function DecodeRecord(t: Tuple): Option<DecodedRow>
  {
    if |t| != 3 || |t[0]| != 8 || |t[1]| != 4 then None
    else
      match DecodeNumeric(t[2])
      case None => None
      case Some(w) => Some(DecodedRow(SignedValue(t[0]), SignedValue(t[1]), w))
  }

  /** Proof step only: where the parts of a concatenation sit, so that the parse round trips need no sequence reasoning of their own. */
  lemma FrameSlices(word: seq<Byte>, payload: seq<Byte>, rest: seq<Byte>)
    ensures (word + payload + rest)[..|word|] == word
    ensures (word + payload + rest)[|word|..|word| + |payload|] == payload
    ensures (word + payload + rest)[|word| + |payload|..] == rest
  {
  }

  lemma {:induction false} FieldsRoundTrip(fields: Tuple, rest: seq<Byte>)
    requires EncodableFields(fields)
    ensures ParseFields(EncodeFields(fields) + rest, |fields|) == Some((fields, rest))
  {
    if fields != [] {
      var f := fields[0];
      var tail := EncodeFields(fields[1..]);
      ConcatAssoc(Int32Bytes(|f|) + f, tail, rest);
      FrameSlices(Int32Bytes(|f|), f, tail + rest);
      Int32RoundTrip(|f|);
      FieldsRoundTrip(fields[1..], rest);
      assert [f] + fields[1..] == fields;
    } else {
      assert EncodeFields(fields) + rest == rest;
    }
  }

  lemma {:induction false} TuplesRoundTrip(ts: seq<Tuple>)
    requires forall i :: 0 <= i < |ts| ==> EncodableTuple(ts[i])
    ensures ParseTuples(EncodeTuples(ts) + Trailer()) == Some(ts)
  {
    if ts == [] {
      assert EncodeTuples(ts) + Trailer() == Int16Bytes(-1);
      Int16RoundTrip(-1);
    } else {
      var t := ts[0];
      var after := EncodeTuples(ts[1..]) + Trailer();
      ConcatAssoc(EncodeTuple(t), EncodeTuples(ts[1..]), Trailer());
      ConcatAssoc(Int16Bytes(|t|), EncodeFields(t), after);
      FrameSlices(Int16Bytes(|t|), [], EncodeFields(t) + after);
      assert Int16Bytes(|t|) + [] == Int16Bytes(|t|);
      Int16RoundTrip(|t|);
      FieldsRoundTrip(t, after);
      TuplesRoundTrip(ts[1..]);
      assert [t] + ts[1..] == ts;
    }
  }

  /** Proof step only: the header's slices of a stream, kept out of `TuplesStreamRoundTrip`'s context. */
  lemma HeaderSlices(h: seq<Byte>, rest: seq<Byte>)
    requires |h| == 19
    ensures (h + rest)[..11] == h[..11]
    ensures (h + rest)[11..15] == h[11..15] && (h + rest)[15..19] == h[15..19]
    ensures (h + rest)[19..] == rest
  {
  }

  /** A stream of any encodable tuples reads back as those tuples. */
  lemma TuplesStreamRoundTrip(ts: seq<Tuple>)
    requires forall i :: 0 <= i < |ts| ==> EncodableTuple(ts[i])
    ensures ParseStream(Header() + EncodeTuples(ts) + Trailer()) == Some(ts)
  {
    var body := EncodeTuples(ts) + Trailer();
    ConcatAssoc(Header(), EncodeTuples(ts), Trailer());
    HeaderSlices(Header(), body);
    HeaderLayout();
    Int32RoundTrip(0);
    TuplesRoundTrip(ts);
  }

  /** The reader recovers, in order, exactly the tuples the writer put down. */
  lemma StreamRoundTrip(rows: seq<Row>)
    requires forall i :: 0 <= i < |rows| ==> ValidRow(rows[i])
    ensures ParseStream(CopyStream(rows)) == Some(Records(rows))
  {
    RowsBytesAreTuples(rows);
    TuplesStreamRoundTrip(Records(rows));
  }

  /** Each record reads back as the row's microsecond offset, sensor id and numeric value. */
  lemma RecordRoundTrip(r: Row)
    requires ValidRow(r)
    ensures DecodeRecord(RecordFields(r))
            == Some(DecodedRow(EncodeTimestamp(r.created), r.sensorId, ToWire(r.temperature)))
  {
    Int64RoundTrip(EncodeTimestamp(r.created));
    Int32RoundTrip(r.sensorId);
    SerializeRoundTrip(ToWire(r.temperature));
  }

  /** One record reads back as the row's instant, sensor id and temperature value. */
  lemma RecordRecovered(r: Row)
    requires ValidRow(r)
    ensures var d := DecodeRecord(RecordFields(r));
            && d.Some?
            && DecodeTimestamp(d.value.micros) == r.created
            && d.value.sensorId == r.sensorId
            && WireValue(d.value.temperature) == DecimalValue(r.temperature)
  {
    RecordRoundTrip(r);
    NumericRoundTrip(r.temperature);
  }

  /**
   * End to end: reading the stream back yields one record per row, in order,
   * whose timestamp decodes to the row's instant, whose sensor id is the
   * row's, and whose numeric has the row's temperature as its value.
   */
  lemma RowsRecovered(rows: seq<Row>)
    requires forall i :: 0 <= i < |rows| ==> ValidRow(rows[i])
    ensures var parsed := ParseStream(CopyStream(rows));
            && parsed.Some?
            && |parsed.value| == |rows|
            && forall i :: 0 <= i < |rows| ==>
                 && DecodeRecord(parsed.value[i]).Some?
                 && DecodeTimestamp(DecodeRecord(parsed.value[i]).value.micros) == rows[i].created
                 && DecodeRecord(parsed.value[i]).value.sensorId == rows[i].sensorId
                 && WireValue(DecodeRecord(parsed.value[i]).value.temperature)
                    == DecimalValue(rows[i].temperature)
  {
    StreamRoundTrip(rows);
    forall i | 0 <= i < |rows| {
      RecordRecovered(rows[i]);
    }
  }
}
