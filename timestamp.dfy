/**
 * The PostgreSQL `timestamptz` binary value as produced by
 * `datetime_to_postgres_binary`: a signed 64-bit count of microseconds since
 * 2000-01-01T00:00:00Z. Instants are modelled as integer microseconds since
 * the Unix epoch, 1970-01-01T00:00:00Z.
 */
module Timestamp {
  import opened BigEndian

  const MICROS_PER_SECOND: int := 1_000_000
  const SECONDS_PER_DAY: int := 86_400
  const MICROS_PER_DAY: int := SECONDS_PER_DAY * MICROS_PER_SECOND

  /** 2000-01-01T00:00:00Z, in microseconds since the Unix epoch. */
  const POSTGRES_EPOCH: int := 946_684_800_000_000

  predicate IsLeapYear(year: int)
  {
    year % 4 == 0 && (year % 100 != 0 || year % 400 == 0)
  }

  /** Days from 1970-01-01 to January 1 of `year` in the proleptic Gregorian calendar. */
  function DaysBeforeYear(year: int): (days: nat)
    requires year >= 1970
    ensures days >= 365 * (year - 1970)
  {
    if year == 1970 then 0
    else DaysBeforeYear(year - 1) + if IsLeapYear(year - 1) then 366 else 365
  }

  /** Midnight UTC on January 1 of `year`, in microseconds since the Unix epoch. */
  function StartOfYear(year: int): int
    requires year >= 1970
  {
    DaysBeforeYear(year) * MICROS_PER_DAY
  }

  /** Before 2100 every fourth year, counting from 1972, is a leap year. */
  lemma {:induction false} DaysBeforeYearCount(year: int)
    requires 1970 <= year <= 2100
    ensures DaysBeforeYear(year) == 365 * (year - 1970) + (year - 1969) / 4
  {
    if year > 1970 {
      DaysBeforeYearCount(year - 1);
      assert IsLeapYear(year - 1) <==> (year - 1969) % 4 == 0;
    }
  }

  /** The constant is the start of the year 2000: 30 years, 7 of them leap years. */
  lemma EpochIsStartOf2000()
    ensures POSTGRES_EPOCH == StartOfYear(2000)
    ensures DaysBeforeYear(2000) == 365 * 30 + 7
  {
    DaysBeforeYearCount(2000);
  }

  /** `datetime_to_postgres_binary`; `num_microseconds().unwrap()` demands an int64 result. */
  function EncodeTimestamp(t: int): (micros: int)
    requires IsInt64(t - POSTGRES_EPOCH)
    ensures IsInt64(micros)
    ensures (micros < 0) == (t < POSTGRES_EPOCH)
  {
    t - POSTGRES_EPOCH
  }

  /** The inverse a reader of the stream applies. */
  function DecodeTimestamp(micros: int): int
  {
    micros + POSTGRES_EPOCH
  }

  lemma TimestampRoundTrip(t: int)
    requires IsInt64(t - POSTGRES_EPOCH)
    ensures DecodeTimestamp(EncodeTimestamp(t)) == t
  {
  }

  lemma DecodeRoundTrip(micros: int)
    requires IsInt64(micros)
    ensures EncodeTimestamp(DecodeTimestamp(micros)) == micros
  {
  }

  /** The epoch itself encodes to 0, one day later to one day of microseconds. */
  lemma TimestampOfEpoch()
    ensures EncodeTimestamp(POSTGRES_EPOCH) == 0
    ensures EncodeTimestamp(POSTGRES_EPOCH + MICROS_PER_DAY) == 86_400_000_000
  {
  }

  /** One microsecond later encodes to exactly one more. */
  lemma TimestampStep(t: int)
    requires IsInt64(t - POSTGRES_EPOCH) && IsInt64(t + 1 - POSTGRES_EPOCH)
    ensures EncodeTimestamp(t + 1) == EncodeTimestamp(t) + 1
  {
  }

  /** The encoding is strictly monotonic and keeps distances. */
  lemma TimestampMonotonic(t: int, u: int)
    requires IsInt64(t - POSTGRES_EPOCH) && IsInt64(u - POSTGRES_EPOCH)
    ensures EncodeTimestamp(u) - EncodeTimestamp(t) == u - t
    ensures t < u <==> EncodeTimestamp(t) < EncodeTimestamp(u)
  {
  }
}
