/** Small types and facts that every component uses. */
module Common {

  datatype Option<+T> = None | Some(value: T)

  datatype Result<+T> = Ok(value: T) | Err

  /** An instant, in nanoseconds since the Unix epoch. */
  type Time = int

  const SECOND: int := 1_000_000_000

  /** time.Time.Unix: whole seconds, rounding towards the past (also before the epoch). */
  function Unix(t: Time): int {
    t / SECOND
  }

  /** time.Unix(s, 0). */
  function FromUnix(s: int): Time {
    s * SECOND
  }

  /** Go's zero time.Time, the start of the year 1: what a time field holds that was never set. */
  const ZERO_TIME: Time := FromUnix(-62135596800)

  /** The values that successive calls of time.Now return. */
  ghost predicate NonDecreasing(now: nat -> Time) {
    forall i: nat, j: nat :: i <= j ==> now(i) <= now(j)
  }

  /** The number of the last of some readings; where none was taken, of the one that would have come first. */
  function LastOf(readings: nat): nat {
    if readings == 0 then 0 else readings - 1
  }

  predicate NoDuplicates<T(==)>(s: seq<T>) {
    forall i, j :: 0 <= i < j < |s| ==> s[i] != s[j]
  }

  /** Unix is the floor of the instant: the second that contains it. */
  lemma UnixIsFloor(t: Time)
    ensures FromUnix(Unix(t)) <= t < FromUnix(Unix(t)) + SECOND
    ensures forall s: int :: FromUnix(s) <= t ==> s <= Unix(t)
  {
  }
}
