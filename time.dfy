/**
 * Timestamps as the kernel and the test programs hold them, and the integer
 * microsecond conversion the two test programs use to pair them.
 */
module Time {

  /** `struct timespec` / `struct timespec64`: seconds and nanoseconds. */
  datatype Timespec = Timespec(sec: int, nsec: int)

  /** `fifo_payload_t`: one lane's identity and its start and end timestamps. */
  datatype Payload = Payload(lusid: int, tsStart: Timespec, tsEnd: Timespec)

  /** The `{0, 0}` value both test programs use for "nothing recorded". */
  const Zero := Timespec(0, 0)

  /** A timestamp whose nanoseconds are in their proper range [0, 1e9). */
  predicate Normalized(t: Timespec)
  {
    0 <= t.nsec < 1000000000
  }

  /** `nsec / 1000` with C's truncation toward zero (Dafny's `/` is Euclidean). */
  function UsecPart(ns: int): (r: int)
    ensures ns >= 0 ==> 0 <= r && 1000 * r <= ns < 1000 * r + 1000
    ensures ns < 0 ==> r <= 0 && 1000 * r - 1000 < ns <= 1000 * r
  {
    if ns >= 0 then ns / 1000 else -((-ns) / 1000)
  }

  /** `sec * 1000000 + nsec / 1000`: microseconds, nanoseconds truncated. */
  function Usecs(t: Timespec): (r: int)
    ensures Normalized(t) ==> t.sec * 1000000 <= r < t.sec * 1000000 + 1000000
  {
    t.sec * 1000000 + UsecPart(t.nsec)
  }

  /** The `{0, 0}` timestamp is at microsecond 0. */
  lemma UsecsOfZero(t: Timespec)
    requires t.sec == 0 && t.nsec == 0
    ensures Usecs(t) == 0
  {
  }

  /** A timestamp at or after second 1 is at least a million microseconds. */
  lemma UsecsOfPositiveSecond(t: Timespec)
    requires Normalized(t) && t.sec > 0
    ensures Usecs(t) >= 1000000
  {
    UsecsWithinSecond(t);
  }

  /** Strictly earlier, comparing seconds first and then nanoseconds. */
  predicate Earlier(a: Timespec, b: Timespec)
  {
    a.sec < b.sec || (a.sec == b.sec && a.nsec < b.nsec)
  }

  /**
   * For a normalized timestamp C's truncating `/` and Dafny's Euclidean `/`
   * agree, so the microseconds are the plain formula.
   */
  lemma UsecsWithinSecond(t: Timespec)
    requires Normalized(t)
    ensures Usecs(t) == t.sec * 1000000 + t.nsec / 1000
  {
  }

  /**
   * A positive difference in microseconds means the second timestamp is
   * strictly later; a later timestamp never gives a negative difference.
   */
  lemma ElapsedSignFollowsOrder(a: Timespec, b: Timespec)
    requires Normalized(a) && Normalized(b)
    ensures Usecs(b) - Usecs(a) > 0 ==> Earlier(a, b)
    ensures Earlier(a, b) ==> Usecs(b) - Usecs(a) >= 0
  {
    UsecsWithinSecond(a);
    UsecsWithinSecond(b);
    if a.sec == b.sec && a.nsec <= b.nsec {
      DivMonotone(a.nsec, b.nsec);
    }
  }

  lemma DivMonotone(x: int, y: int)
    requires 0 <= x <= y
    ensures x / 1000 <= y / 1000
  {
    var qx, qy := x / 1000, y / 1000;
    assert 1000 * qx <= x < 1000 * qx + 1000;
    assert 1000 * qy <= y < 1000 * qy + 1000;
  }
}
