/** Cache ages. A stamp's age is computed in unsigned 64-bit arithmetic from seconds and
    nanoseconds; this module says when that computation means what it should. */
module Clock {
  import opened Bits

  const NANOS_PER_SEC: nat := 1_000_000_000
  const NANOS_PER_MS: nat := 1_000_000

  datatype Time = Time(sec: nat, nsec: nat)

  /** The stamp of an entry that was never filled, or was flushed. */
  const ZERO: Time := Time(0, 0)

  function Nanos(t: Time): nat {
    t.sec * NANOS_PER_SEC + t.nsec
  }

  /** Both differences are signed; the product with the unsigned 1e9 and the sum are taken
      modulo 2^64. */
  function TimeDiff(now: Time, stamp: Time): U64 {
    Wrap64(Wrap64(Wrap64(now.sec - stamp.sec) * NANOS_PER_SEC) + Wrap64(now.nsec - stamp.nsec))
  }

  /** VT_CACHE_TIME_NS for a cache time of `ms` milliseconds. */
  function CacheNanos(ms: nat): U64 {
    Wrap64(ms * NANOS_PER_MS)
  }

  predicate Fresh(now: Time, stamp: Time, ms: nat) {
    TimeDiff(now, stamp) < CacheNanos(ms)
  }

  lemma WrapOfSum(a: int, b: int)
    ensures Wrap64(Wrap64(a) + Wrap64(b)) == Wrap64(a + b)
  {
    var p, q := a / TWO_64, b / TWO_64;
    WrapShift(a + b, -p - q);
    assert Wrap64(a) + Wrap64(b) == a + b + (-p - q) * TWO_64;
  }

  lemma WrapShift(a: int, k: int)
    ensures Wrap64(a + k * TWO_64) == Wrap64(a)
  {
  }

  lemma WrapOfProduct(a: int)
    ensures Wrap64(Wrap64(a) * NANOS_PER_SEC) == Wrap64(a * NANOS_PER_SEC)
  {
    var q := a / TWO_64;
    assert Wrap64(a) * NANOS_PER_SEC == a * NANOS_PER_SEC + (-q * NANOS_PER_SEC) * TWO_64;
    WrapShift(a * NANOS_PER_SEC, -q * NANOS_PER_SEC);
  }

  /** Borrowing between the two fields never matters: the difference is that of the two
      readings in nanoseconds, modulo 2^64. */
  lemma TimeDiffIsNanos(now: Time, stamp: Time)
    ensures TimeDiff(now, stamp) == Wrap64(Nanos(now) - Nanos(stamp))
    ensures Nanos(now) - Nanos(stamp) == (now.sec - stamp.sec) * 1_000_000_000 + (now.nsec - stamp.nsec)
  {
    var s, n := now.sec - stamp.sec, now.nsec - stamp.nsec;
    WrapOfProduct(s);
    WrapOfSum(s * NANOS_PER_SEC, n);
    assert Nanos(now) - Nanos(stamp) == s * NANOS_PER_SEC + n;
  }

  /** The test exactly, for readings less than 2^64 ns apart: it passes for an age in [0, T)
      and also for a stamp so far in the future that the subtraction wraps below T. */
  lemma FreshExactly(now: Time, stamp: Time, ms: nat)
    requires -TWO_64 < Nanos(now) - Nanos(stamp) < TWO_64
    ensures var d := Nanos(now) - Nanos(stamp);
            Fresh(now, stamp, ms) <==> 0 <= d < CacheNanos(ms) || d < CacheNanos(ms) - TWO_64
  {
    TimeDiffIsNanos(now, stamp);
    var d := Nanos(now) - Nanos(stamp);
    if d < 0 { WrapShift(d, 1); }
  }

  /** Hence with a cache time that fits 63 bits and readings below 2^63 ns the test is the
      intended one, for past and for future stamps. */
  lemma FreshMeansYoung(now: Time, stamp: Time, ms: nat)
    requires Nanos(now) < TWO_64 / 2 && Nanos(stamp) < TWO_64 / 2
    requires ms * NANOS_PER_MS <= TWO_64 / 2
    ensures Fresh(now, stamp, ms) <==> 0 <= Nanos(now) - Nanos(stamp) < ms * NANOS_PER_MS
  {
    FreshExactly(now, stamp, ms);
  }

  /** The cache time in force is the one that was set exactly when it is below 2^64 ns, and
      otherwise a shorter one. */
  lemma CacheTimeKeptExactly(ms: nat)
    ensures CacheNanos(ms) == ms * NANOS_PER_MS <==> ms * NANOS_PER_MS < TWO_64
    ensures ms * NANOS_PER_MS >= TWO_64 ==> CacheNanos(ms) < ms * NANOS_PER_MS
  {
  }

  /** 2^58 ms, which a size_t can hold, is taken as zero: 10^6 * 2^58 is 15625 * 2^64. */
  lemma LongCacheTimeCollapses(now: Time, stamp: Time)
    ensures !Fresh(now, stamp, 0x400_0000_0000_0000)
  {
    WrapShift(0, 15625);
  }
}
