/** Optional values and results, the machine integers of the signed artifacts, and lists
    compared item by item. */
module Wrappers {
  datatype Option<+T> = None | Some(value: T)

  datatype Result<+T, +E> = Ok(value: T) | Err(error: E)

  type byte = x: int | 0 <= x < 256
  type u32 = x: int | 0 <= x < 0x1_0000_0000
  type u64 = x: int | 0 <= x < 0x1_0000_0000_0000_0000
  type i64 = x: int | -0x8000_0000_0000_0000 <= x < 0x8000_0000_0000_0000

  /** An instant in nanoseconds since the epoch, within a calendar whose seconds fit `i64`. */
  type Instant = t: int | -9_223_372_036_854_775_808_000_000_000 <= t < 9_223_372_036_854_775_808_000_000_000

  /** Its whole seconds, rounded down: all that a digest sees of it. */
  function Seconds(t: Instant): i64 {
    t / 1_000_000_000
  }

  /** Before the epoch too. */
  lemma SecondsRoundDown(t: Instant)
    ensures Seconds(t) * 1_000_000_000 <= t < (Seconds(t) + 1) * 1_000_000_000
  {
  }

  function OptSeconds(t: Option<Instant>): Option<i64> {
    match t
    case None => None
    case Some(x) => Some(Seconds(x))
  }

  /** Two lists of the same length, alike item by item. */
  predicate AllSame<T>(a: seq<T>, b: seq<T>, same: (T, T) -> bool) {
    |a| == |b| && forall i | 0 <= i < |a| :: same(a[i], b[i])
  }

  lemma AllSameCons<T>(a: seq<T>, b: seq<T>, same: (T, T) -> bool)
    requires |a| == |b| > 0 && same(a[0], b[0]) && AllSame(a[1..], b[1..], same)
    ensures AllSame(a, b, same)
  {
    forall i | 0 <= i < |a|
      ensures same(a[i], b[i])
    {
      if i > 0 {
        assert same(a[1..][i - 1], b[1..][i - 1]);
      }
    }
  }

  lemma AllSameTail<T>(a: seq<T>, b: seq<T>, same: (T, T) -> bool)
    requires a != [] && AllSame(a, b, same)
    ensures AllSame(a[1..], b[1..], same)
  {
    forall i | 0 <= i < |a| - 1
      ensures same(a[1..][i], b[1..][i])
    {
      assert same(a[i + 1], b[i + 1]);
    }
  }
}
