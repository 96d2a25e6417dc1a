/** Installing a certificate in the SSH agent: the lifetime given to both entries. */
module AgentInstall {
  import opened Common
  import opened Records
  import Signer

  const TWO_32: int := 0x1_0000_0000

  /** What the agent is given; a lifetime of zero puts no limit on the entry. */
  datatype AddedKey = AddedKey(withCertificate: bool, comment: string, lifetimeSecs: nat)

  /** uint32 of a floating point number; outside the range the result is up to the implementation. */
  function ToUint32(x: real, outOfRange: nat): (u: nat)
    ensures outOfRange < TWO_32 ==> u < TWO_32
  {
    if 0.0 <= x < TWO_32 as real then x.Floor else outOfRange
  }

  /** time.Until(t).Seconds(), exactly. */
  function SecondsUntil(t: Time, now: Time): real {
    (t - now) as real / SECOND as real
  }

  class Agent {
    var keys: seq<AddedKey>

    constructor ()
      ensures keys == []
    {
      keys := [];
    }

    method Add(key: AddedKey, accepts: bool) returns (ok: bool)
      modifies this
      ensures ok == accepts && keys == if ok then old(keys) + [key] else old(keys)
    {
      if accepts {
        keys := keys + [key];
      }
      return accepts;
    }
  }

  /** The clock is read once. `accepts` says whether the agent takes the first and the second entry. */
  method InstallCert(agent: Agent, validBefore: nat, comment: string, now: Time, accepts: (bool, bool), outOfRange: nat)
    returns (ok: bool)
    requires validBefore < TWO_64
    modifies agent
    ensures ok <==> accepts.0 && accepts.1
    ensures var secs := ToUint32(SecondsUntil(ParseTime(validBefore), now), outOfRange);
            var cert, key := AddedKey(true, comment, secs), AddedKey(false, comment, secs);
            agent.keys == old(agent.keys) + (if ok then [cert, key] else if accepts.0 then [cert] else [])
  {
    var lifetime := SecondsUntil(FromUnix(ToInt64(validBefore)), now);
    var added := agent.Add(AddedKey(true, comment, ToUint32(lifetime, outOfRange)), accepts.0);
    if !added {
      return false;
    }
    ok := agent.Add(AddedKey(false, comment, ToUint32(lifetime, outOfRange)), accepts.1);
  }

  lemma FloorOfSeconds(d: int)
    requires 0 <= d
    ensures (d as real / SECOND as real).Floor == d / SECOND
  {
    var q, x := d / SECOND, d as real / SECOND as real;
    assert x * SECOND as real == d as real;
    assert q as real * SECOND as real == (q * SECOND) as real;
    assert (q + 1) as real * SECOND as real == ((q + 1) * SECOND) as real;
    assert q as real <= x < (q + 1) as real;
  }

  /** When the agent drops an entry added at `now`; a lifetime of zero puts no limit on it. */
  function DropTime(now: Time, lifetimeSecs: nat): Option<Time> {
    if lifetimeSecs == 0 then None else Some(now + lifetimeSecs * SECOND)
  }

  /** When the agent drops the entries of a certificate installed at `now`. */
  function InstalledUntil(validBefore: nat, now: Time, outOfRange: nat): Option<Time>
    requires validBefore < TWO_64
  {
    DropTime(now, ToUint32(SecondsUntil(ParseTime(validBefore), now), outOfRange))
  }

  /** The lifetime is the whole seconds left, so it is zero exactly when less than one second is left. */
  lemma LifetimeIsWholeSeconds(before: int, now: Time, outOfRange: nat)
    requires IsInt64(before) && now <= FromUnix(before) < now + TWO_32 * SECOND
    ensures ToUint32(SecondsUntil(ParseTime(ToUint64(before)), now), outOfRange) == (FromUnix(before) - now) / SECOND
  {
    Uint64RoundTrip(before);
    var d := FromUnix(before) - now;
    assert (TWO_32 * SECOND) as real / SECOND as real == TWO_32 as real;
    FloorOfSeconds(d);
  }

  /**
   * For a certificate not yet expired with less than 2^32 seconds left, the agent drops the entries by ValidBefore,
   * and then less than a second early, exactly when at least one second is left. Otherwise it keeps them for ever.
   */
  lemma DroppedByValidBeforeIff(before: int, now: Time, outOfRange: nat)
    requires IsInt64(before) && now <= FromUnix(before) < now + TWO_32 * SECOND
    ensures var drop := InstalledUntil(ToUint64(before), now, outOfRange);
            && (drop.Some? && drop.value <= FromUnix(before) <==> FromUnix(before) - now >= SECOND)
            && (drop.Some? ==> FromUnix(before) < drop.value + SECOND)
            && (drop.None? <==> FromUnix(before) - now < SECOND)
  {
    LifetimeIsWholeSeconds(before, now, outOfRange);
  }

  /**
   * With the signer's clamp and a shared clock, the entries are gone max_age after the signer's reading, under the same
   * exact condition.
   */
  lemma DroppedWithinMaxAgeIff(until: Time, maxAge: int, t0: Time, now: Time, outOfRange: nat)
    requires t0 <= now
    requires var before := Unix(Signer.Clamp(until, t0 + maxAge));
             IsInt64(before) && now <= FromUnix(before) < now + TWO_32 * SECOND
    ensures var before := Unix(Signer.Clamp(until, t0 + maxAge));
            var drop := InstalledUntil(ToUint64(before), now, outOfRange);
            drop.Some? && drop.value <= t0 + maxAge <==> FromUnix(before) - now >= SECOND
  {
    var before := Unix(Signer.Clamp(until, t0 + maxAge));
    DroppedByValidBeforeIff(before, now, outOfRange);
    UnixIsFloor(Signer.Clamp(until, t0 + maxAge));
  }

  /** One nanosecond into its last second, a certificate is installed without any limit. */
  lemma LastSecondStays(outOfRange: nat)
    ensures InstalledUntil(10, 9 * SECOND + 1, outOfRange) == None
    ensures InstalledUntil(10, 10 * SECOND - 1, outOfRange) == None
  {
    DroppedByValidBeforeIff(10, 9 * SECOND + 1, outOfRange);
    DroppedByValidBeforeIff(10, 10 * SECOND - 1, outOfRange);
  }
}
