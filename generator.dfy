/**
 * The deterministic part of the synthetic data producer: `generate_batch`
 * stamps every row of a batch with the same instant and walks a sensor id
 * with `(current + i) % MAX_SENSORS + 1` in 32-bit arithmetic, and
 * `generate_data` advances the instant by 100 ms per batch. The random
 * temperatures are an input here.
 */
module Generator {
  import opened BigEndian
  import opened Numeric
  import opened Timestamp
  import opened CopyBinary

  const BATCH_SIZE: nat := 10_000
  const MAX_SENSORS: int := 32

  /** `Duration::milliseconds(100)`, in microseconds. */
  const TICK_MICROS: int := 100_000

  /** Rust's `%` on integers: the remainder takes the sign of the dividend. */
  function RemT(a: int, m: int): (r: int)
    requires m > 0
    ensures -m < r < m
    ensures a >= 0 ==> 0 <= r
    ensures a <= 0 ==> r <= 0
    ensures -m < a < m ==> r == a
  {
    if a >= 0 then a % m else -((-a) % m)
  }

  /** The remainder differs from the dividend by a multiple of the divisor. */
  lemma RemTCongruent(a: int)
    ensures (a - RemT(a, MAX_SENSORS)) % MAX_SENSORS == 0
  {
  }

  /** One step of the walk; the `i32` addition must not overflow. */
  function NextSensorId(current: int, i: int): (next: int)
    requires IsInt32(current + i)
    ensures -(MAX_SENSORS - 2) <= next <= MAX_SENSORS
    ensures current + i >= 0 ==> 1 <= next <= MAX_SENSORS
    ensures -MAX_SENSORS < current + i < 0 ==> next == current + i + 1
  {
    RemT(current + i, MAX_SENSORS) + 1
  }

  /** The value of `current_sensor_id` after the first `k` rows of a batch. */
  function SensorIdAfter(start: int, k: nat): (id: int)
    requires IsInt32(start) && k <= BATCH_SIZE
    ensures k == 0 ==> id == start
    ensures k > 0 ==> -(MAX_SENSORS - 2) <= id <= MAX_SENSORS
    ensures k > 0 && start >= 0 ==> 1 <= id <= MAX_SENSORS
  {
    if k == 0 then start else NextSensorId(SensorIdAfter(start, k - 1), k - 1)
  }

  /** 0 + 1 + ... + n */
  function Triangle(n: nat): (t: nat)
  {
    if n == 0 then 0 else Triangle(n - 1) + n
  }

  lemma {:induction false} TriangleGrows(n: nat)
    requires n >= 7
    ensures Triangle(n) + n >= 35
  {
    if n > 7 {
      TriangleGrows(n - 1);
    }
  }

  /**
   * A negative starting id can give non-positive ids only at the head of a
   * batch: the first id is at least -30, and while `current + i` is negative
   * the id climbs by `i + 1` per row.
   */
  lemma {:induction false} SensorIdsSettle(start: int, k: nat)
    requires IsInt32(start) && 1 <= k <= BATCH_SIZE
    ensures SensorIdAfter(start, k) >= 1
         || SensorIdAfter(start, k) >= Triangle(k - 1) + (k - 1) - (MAX_SENSORS - 2)
  {
    if k > 1 {
      SensorIdsSettle(start, k - 1);
    }
  }

  /**
   * So from the eighth row of a batch on, every id is in [1, 32]. The bound
   * is exact: from -31 the seventh id is still -3 (`SensorIdsFromNegative`).
   */
  lemma SensorIdsPositiveFromEighthRow(start: int, k: nat)
    requires IsInt32(start) && 8 <= k <= BATCH_SIZE
    ensures 1 <= SensorIdAfter(start, k) <= MAX_SENSORS
  {
    SensorIdsSettle(start, k);
    TriangleGrows(k - 1);
  }

  /** The walk from 1, where every batch starts: 2, 4, 7, 11, 16, 22, 29, 5. */
  lemma SensorIdsFromOne()
    ensures SensorIdAfter(1, 1) == 2 && SensorIdAfter(1, 2) == 4
    ensures SensorIdAfter(1, 3) == 7 && SensorIdAfter(1, 4) == 11
    ensures SensorIdAfter(1, 5) == 16 && SensorIdAfter(1, 6) == 22
    ensures SensorIdAfter(1, 7) == 29 && SensorIdAfter(1, 8) == 5
  {
  }

  /** A negative start: -31, then -30, -28, -25, -21, -16, -10, -3, 5. */
  lemma SensorIdsFromNegative()
    ensures SensorIdAfter(-31, 1) == -30 && SensorIdAfter(-31, 7) == -3
    ensures SensorIdAfter(-31, 8) == 5
  {
  }

  /** A negative multiple of 32 behaves like 0: truncating `-32 % 32` is 0. */
  lemma SensorIdsFromMinusThirtyTwo()
    ensures SensorIdAfter(-32, 1) == 1 && SensorIdAfter(-32, 2) == 3
    ensures SensorIdAfter(-64, 1) == 1
  {
  }

  /** The rows of one batch. */
  function BatchRows(created: int, sensorId: int, temperatures: seq<Decimal>): (rows: seq<Row>)
    requires IsInt32(sensorId) && |temperatures| <= BATCH_SIZE
    ensures |rows| == |temperatures|
    ensures forall i :: 0 <= i < |rows| ==>
              && rows[i].created == created
              && rows[i].sensorId == SensorIdAfter(sensorId, i + 1)
              && rows[i].temperature == temperatures[i]
  {
    seq(|temperatures|, i requires 0 <= i < |temperatures| =>
      Row(created, SensorIdAfter(sensorId, i + 1), temperatures[i]))
  }

  /** A batch can be handed to `generate_buffer`. */
  lemma BatchRowsValid(created: int, sensorId: int, temperatures: seq<Decimal>)
    requires IsInt32(sensorId) && |temperatures| <= BATCH_SIZE
    requires IsInt64(created - POSTGRES_EPOCH)
    requires forall i :: 0 <= i < |temperatures| ==> ValidDecimal(temperatures[i])
    ensures forall i :: 0 <= i < |temperatures| ==> ValidRow(BatchRows(created, sensorId, temperatures)[i])
  {
  }

  /**
   * `generate_batch`: `temperatures[i]` stands for the rounded random reading
   * of row `i`. The second result is the input `sensor_id`, not the last id
   * of the walk.
   */
  method GenerateBatch(created: int, sensorId: int, temperatures: seq<Decimal>)
    returns (batch: seq<Row>, returnedId: int)
    requires IsInt32(sensorId)
    requires |temperatures| == BATCH_SIZE
    ensures batch == BatchRows(created, sensorId, temperatures)
    ensures |batch| == BATCH_SIZE
    ensures sensorId >= 0 ==> forall i :: 0 <= i < |batch| ==> 1 <= batch[i].sensorId <= MAX_SENSORS
    ensures forall i :: 7 <= i < |batch| ==> 1 <= batch[i].sensorId <= MAX_SENSORS
    ensures returnedId == sensorId
  {
    var current := sensorId;
    batch := [];
    for i := 0 to BATCH_SIZE
      invariant current == SensorIdAfter(sensorId, i)
      invariant batch == BatchRows(created, sensorId, temperatures[..i])
    {
      current := NextSensorId(current, i);
      batch := batch + [Row(created, current, temperatures[i])];
    }
    assert temperatures[..BATCH_SIZE] == temperatures;
    forall i | 7 <= i < |batch|
      ensures 1 <= batch[i].sensorId <= MAX_SENSORS
    {
      SensorIdsPositiveFromEighthRow(sensorId, i + 1);
    }
    returnedId := sensorId;
  }

  /**
   * `generate_data`: batch `k` (counting from 0) is stamped `k + 1` ticks
   * after `start` and carries tick number `k + 1`. Since `generate_batch`
   * hands back the id it was given, every batch walks from sensor id 1.
   */
  method GenerateData(start: int, temperatures: seq<seq<Decimal>>)
    returns (batches: seq<(seq<Row>, int)>)
    requires forall k :: 0 <= k < |temperatures| ==> |temperatures[k]| == BATCH_SIZE
    ensures |batches| == |temperatures|
    ensures forall k :: 0 <= k < |batches| ==>
              && batches[k].1 == k + 1
              && batches[k].0 == BatchRows(start + (k + 1) * TICK_MICROS, 1, temperatures[k])
  {
    var currentTime := start;
    var sensorId := 1;
    var currentTick := 0;
    batches := [];
    for k := 0 to |temperatures|
      invariant currentTick == k && currentTime == start + k * TICK_MICROS && sensorId == 1
      invariant |batches| == k
      invariant forall j :: 0 <= j < k ==>
                  && batches[j].1 == j + 1
                  && batches[j].0 == BatchRows(start + (j + 1) * TICK_MICROS, 1, temperatures[j])
    {
      currentTick := currentTick + 1;
      currentTime := currentTime + TICK_MICROS;
      var newBatch, newSensorId := GenerateBatch(currentTime, sensorId, temperatures[k]);
      sensorId := newSensorId;
      batches := batches + [(newBatch, currentTick)];
    }
  }
}
