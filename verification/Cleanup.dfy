/** The cutoff of the recurring `CleanupJob` and the rows its DELETE removes. */
module Cleanup {
  import opened Arith
  import opened Lexicographic
  import opened TimestampText

  const U64_MAX: int := 0xFFFF_FFFF_FFFF_FFFF
  const I64_MAX: int := 0x7FFF_FFFF_FFFF_FFFF

  const NANOS: int := 1_000_000_000

  /** The instants a `jiff::Timestamp` can hold, in nanoseconds from the Unix epoch. */
  const TS_MIN: int := -377_705_023_201 * NANOS
  const TS_MAX: int := 253_402_207_200 * NANOS + 999_999_999

  type U64 = n: int | 0 <= n <= U64_MAX

  /** `i64::try_from(days).unwrap_or(MAX).saturating_mul(86400)`, in seconds. */
  function MaxAgeSeconds(days: U64): int { Min(Min(days, I64_MAX) * 86_400, I64_MAX) }

  /** `now.checked_sub(max_age).unwrap_or(UNIX_EPOCH)`, in nanoseconds. */
  function Cutoff(now: int, days: U64): int {
    var cutoff := now - MaxAgeSeconds(days) * NANOS;
    if TS_MIN <= cutoff <= TS_MAX then cutoff else 0
  }

  /** The retention asked for, without any saturation. */
  function Retention(days: U64): int { days * 86_400 * NANOS }

  /** Saturation does not matter: an age the arithmetic cannot hold is not representable either,
      so for rows from after the epoch the cutoff acts as `now` less the full retention. */
  lemma SaturationIsInvisible(now: int, days: U64, lastRefill: int)
    requires 0 <= lastRefill && now <= TS_MAX
    ensures lastRefill < Cutoff(now, days) <==> lastRefill < now - Retention(days)
  {
    var exact := days * 86_400;
    if exact > I64_MAX {
      assert MaxAgeSeconds(days) == I64_MAX;
    } else {
      assert MaxAgeSeconds(days) == exact;
    }
  }

  /** The cutoff is `now` less the retention where that is an instant at all, and else the epoch. */
  lemma CutoffIsExactOrEpoch(now: int, days: U64)
    requires TS_MIN <= now <= TS_MAX
    ensures var exact := now - days * 86_400 * NANOS;
            Cutoff(now, days) == if TS_MIN <= exact <= TS_MAX then exact else 0
  {
    if days * 86_400 > I64_MAX {
      assert MaxAgeSeconds(days) == I64_MAX;
    } else {
      assert MaxAgeSeconds(days) == days * 86_400;
    }
  }

  /** The representable instants are those from 2 January of the year -9999, 01:59:59, to 30 December 9999,
      22:00:00.999999999.  Twenty-five Gregorian cycles of 146097 days carry the year -9999 to the year 1. */
  lemma RepresentableInstants()
    ensures var first := DayNumber(Date(1, 1, 2)) - 25 * 146_097 - DayNumber(Date(1970, 1, 1));
            TS_MIN == (first * 86_400 + 1 * 3600 + 59 * 60 + 59) * 1_000_000_000
    ensures var last := DayNumber(Date(9999, 12, 30)) - DayNumber(Date(1970, 1, 1));
            TS_MAX == (last * 86_400 + 22 * 3600) * 1_000_000_000 + 999_999_999
  {
    hide DayNumber;
    DayNumberClosedForm(Date(1, 1, 2));
    DayNumberClosedForm(Date(9999, 12, 30));
    DayNumberClosedForm(Date(1970, 1, 1));
  }

  /** For every retention and every instant, even before the epoch: nothing used since both the
      epoch and the retention is older than the cutoff. */
  lemma CutoffIsConservative(now: int, days: U64, lastRefill: int)
    requires TS_MIN <= now <= TS_MAX && lastRefill >= Max(0, now - Retention(days))
    ensures !(lastRefill < Cutoff(now, days))
  {
    SaturationIsInvisible(now, days, lastRefill);
  }

  // ---------------------------------------------------------------------------
  // The comparison SQLite makes
  // ---------------------------------------------------------------------------

  /** `last_refill` as text: six digits as inserted, three once a refill rewrote it. */
  datatype StoredRefill = Inserted(nanos: int) | Rewritten(nanos: int) {
    predicate Valid() { Storable(nanos) && 0 <= nanos && nanos % 1000 == 0 && (Rewritten? ==> nanos % 1_000_000 == 0) }

    function Text(): string
      requires Valid()
    {
      match this
      case Inserted(_) => StorageText(nanos)
      case Rewritten(_) => ThreeDigitText(TruncMicros(nanos) + EPOCH)
    }
  }

  /** Every row from after the epoch has a text: six digits, or three once it is a whole millisecond. */
  lemma EveryRowHasText(micros: nat)
    requires FourDigitYear(micros + EPOCH)
    ensures Inserted(micros * 1000).Valid() && (micros % 1000 == 0 ==> Rewritten(micros * 1000).Valid())
  {
    hide FourDigitYear;
    assert micros % 1000 == 0 ==> micros * 1000 == micros / 1000 * 1_000_000;
  }

  /** `DELETE FROM rate_limit_buckets WHERE last_refill < ?1`, on text. */
  predicate SqliteDeletes(row: StoredRefill, now: int, days: U64)
    requires row.Valid() && Storable(Cutoff(now, days))
  {
    Less(row.Text(), StorageText(Cutoff(now, days)))
  }

  /** Text comparison deletes exactly the rows whose microsecond (inserted rows) or millisecond
      (rewritten rows) lies before that of the cutoff. */
  lemma TextDeletionIsExact(row: StoredRefill, now: int, days: U64)
    requires row.Valid() && Storable(Cutoff(now, days)) && 0 <= Cutoff(now, days)
    ensures SqliteDeletes(row, now, days) <==>
            if row.Inserted? then row.nanos / 1000 < Cutoff(now, days) / 1000
            else row.nanos / 1_000_000 < Cutoff(now, days) / 1_000_000
  {
    hide Cutoff, Less, ThreeDigitText, SixDigitText, FourDigitYear;
    var cutoff := Cutoff(now, days);
    if row.Inserted? {
      StorageTextIsOrderEmbedding(row.nanos, cutoff);
    } else {
      MixedTextOrder(TruncMicros(row.nanos) + EPOCH, TruncMicros(cutoff) + EPOCH);
      MillisFromEpoch(row.nanos);
      MillisFromEpoch(cutoff);
    }
  }

  lemma MillisFromEpoch(nanos: nat)
    ensures (nanos / 1000 + EPOCH) / 1000 == nanos / 1_000_000 + EPOCH / 1000
  {
    assert EPOCH / 1000 * 1000 == EPOCH;
    assert nanos / 1000 / 1000 == nanos / 1_000_000;
  }

  /** The job deletes only rows strictly older than the retention, whatever their text form, and
      keeps an older row for less than a millisecond too long. */
  lemma TextDeletionIsConservative(row: StoredRefill, now: int, days: U64)
    requires row.Valid() && TS_MIN <= now <= TS_MAX && Storable(Cutoff(now, days))
    ensures SqliteDeletes(row, now, days) ==> row.nanos < now - Retention(days)
    ensures row.nanos + 1_000_000 <= now - Retention(days) ==> SqliteDeletes(row, now, days)
  {
    if Cutoff(now, days) < 0 {
      NothingBeforeEpoch(row, now, days);
    } else {
      TextDeletionIsExact(row, now, days);
      SaturationIsInvisible(now, days, row.nanos);
    }
    if row.nanos + 1_000_000 <= now - Retention(days) { CutoffAtRetention(now, days); }
  }

  lemma NothingBeforeEpoch(row: StoredRefill, now: int, days: U64)
    requires row.Valid() && Storable(Cutoff(now, days)) && Cutoff(now, days) < 0
    ensures !SqliteDeletes(row, now, days)
  {
    var cutoff := Cutoff(now, days);
    if row.Inserted? {
      StorageTextIsOrderEmbedding(row.nanos, cutoff);
    } else {
      MixedTextOrder(TruncMicros(row.nanos) + EPOCH, TruncMicros(cutoff) + EPOCH);
    }
  }

  lemma CutoffAtRetention(now: int, days: U64)
    requires TS_MIN <= now <= TS_MAX && now - Retention(days) >= 0
    ensures Cutoff(now, days) == now - Retention(days)
  {
    assert days * 86_400 * NANOS <= TS_MAX;
    assert MaxAgeSeconds(days) == days * 86_400;
  }
}
