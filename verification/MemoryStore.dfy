/** The in-memory certificate store: a map of shared, mutable records. */
module MemoryStore {
  import opened Common
  import opened Records

  type Certs = map<string, Record>

  /** A stored record. The store and its callers hold references to the same object. */
  class CertRecord {
    const initial: Record
    var revoked: bool

    constructor (initial: Record)
      ensures this.initial == initial && Value() == initial
    {
      this.initial, revoked := initial, initial.revoked;
    }

    function Value(): Record
      reads this
    {
      initial.(revoked := revoked)
    }
  }

  function Flag(certs: Certs, id: string): Certs
    requires id in certs
  {
    certs[id := certs[id].(revoked := true)]
  }

  /** Flags the ids in order; an id without a record stops the walk (a nil dereference in the source). */
  function RevokeInOrder(certs: Certs, ids: seq<string>): (r: (Certs, bool))
    ensures r.0.Keys == certs.Keys
    ensures r.1 <==> forall id :: id in ids ==> id in certs
    decreases |ids|
  {
    if ids == [] then (certs, true)
    else if ids[0] !in certs then (certs, false)
    else
      assert ids == [ids[0]] + ids[1..];
      RevokeInOrder(Flag(certs, ids[0]), ids[1..])
  }

  /** The ids in front of the first one without a record. */
  function KnownPrefix(keys: set<string>, ids: seq<string>): seq<string> {
    if ids == [] || ids[0] !in keys then [] else [ids[0]] + KnownPrefix(keys, ids[1..])
  }

  /** Exactly the records named in front of the first unknown id become revoked; nothing else changes. */
  lemma {:induction false} RevokeFlagsKnownPrefix(certs: Certs, ids: seq<string>, id: string)
    requires id in certs
    ensures RevokeInOrder(certs, ids).0[id]
            == if id in KnownPrefix(certs.Keys, ids) then certs[id].(revoked := true) else certs[id]
    ensures RevokeInOrder(certs, ids).1 ==> KnownPrefix(certs.Keys, ids) == ids
    decreases |ids|
  {
    if ids != [] && ids[0] in certs {
      var flagged := Flag(certs, ids[0]);
      assert flagged.Keys == certs.Keys;
      RevokeFlagsKnownPrefix(flagged, ids[1..], id);
    }
  }

  class Store {
    var certs: map<string, CertRecord>

    constructor ()
      ensures Valid() && Contents() == map[]
    {
      certs := map[];
    }

    /** Each record is filed under its own key id, so no two keys share a record. */
    ghost predicate Valid()
      reads this
    {
      forall id :: id in certs ==> certs[id].initial.keyId == id
    }

    ghost function Contents(): Certs
      reads this, certs.Values
    {
      map id | id in certs :: certs[id].Value()
    }

    /** Hands out the stored object itself, so a later Revoke shows through it. */
    method Get(id: string) returns (r: Option<CertRecord>)
      ensures r == if id in certs then Some(certs[id]) else None
    {
      r := if id in certs then Some(certs[id]) else None;
    }

    /** Overwrites any record with the same key id. */
    method SetRecord(rec: CertRecord)
      requires Valid()
      modifies this`certs
      ensures Valid() && certs == old(certs)[rec.initial.keyId := rec]
      ensures Contents() == old(Contents())[rec.initial.keyId := rec.Value()]
    {
      certs := certs[rec.initial.keyId := rec];
    }

    /**
     * `now` gives the successive clock readings. The walk over the map takes the records in any order and reads the
     * clock at each; `reading` tells which of the `readings` readings met the record with a given key id.
     */
    method List(includeExpired: bool, now: nat -> Time)
      returns (records: seq<CertRecord>, ghost reading: map<string, Time>, ghost readings: nat)
      requires Valid() && NonDecreasing(now)
      ensures NoDuplicates(records)
      ensures reading.Keys == certs.Keys && forall id :: id in certs ==> now(0) <= reading[id] <= now(LastOf(readings))
      ensures readings == 0 || exists id :: id in reading && reading[id] == now(readings - 1)
      ensures forall r :: r in records
                <==> r in certs.Values && (includeExpired || !(r.initial.expires < reading[r.initial.keyId]))
    {
      records, reading := [], map[];
      var rest := certs.Keys;
      var k := 0;
      while rest != {}
        invariant rest <= certs.Keys && reading.Keys == certs.Keys - rest
        invariant forall id :: id in reading ==> now(0) <= reading[id] <= now(LastOf(k))
        invariant includeExpired ==> k == 0
        invariant k == 0 || exists id :: id in reading && reading[id] == now(k - 1)
        invariant NoDuplicates(records)
        invariant forall r :: r in records ==> r.initial.keyId in reading && certs[r.initial.keyId] == r
        invariant forall id :: id in reading ==>
                    (certs[id] in records <==> includeExpired || !(certs[id].initial.expires < reading[id]))
        decreases rest
      {
        var id :| id in rest;
        rest := rest - {id};
        var value := certs[id];
        reading := reading[id := now(k)];
        if !includeExpired {
          k := k + 1;
          assert id in reading && reading[id] == now(k - 1);
          if value.initial.expires < now(k - 1) {
            continue;
          }
        }
        records := records + [value];
      }
      readings := k;
    }

    /** Reports whether the call completed; when it does not, the ids in front of the unknown one are flagged. */
    method Revoke(ids: seq<string>) returns (completed: bool)
      requires Valid()
      modifies certs.Values
      ensures (Contents(), completed) == RevokeInOrder(old(Contents()), ids)
    {
      for i := 0 to |ids|
        invariant RevokeInOrder(Contents(), ids[i..]) == RevokeInOrder(old(Contents()), ids)
      {
        assert ids[i..][0] == ids[i] && ids[i..][1..] == ids[i + 1..];
        if ids[i] !in certs {
          return false;
        }
        ghost var before := Contents();
        certs[ids[i]].revoked := true;
        assert Contents() == Flag(before, ids[i]);
      }
      return true;
    }

    /** GetRevoked when nothing else runs between its listing and its flag tests. */
    method GetRevoked(now: nat -> Time)
      returns (revoked: seq<CertRecord>, ghost reading: map<string, Time>, ghost readings: nat)
      requires Valid() && NonDecreasing(now)
      ensures NoDuplicates(revoked)
      ensures reading.Keys == certs.Keys && forall id :: id in certs ==> now(0) <= reading[id] <= now(LastOf(readings))
      ensures readings == 0 || exists id :: id in reading && reading[id] == now(readings - 1)
      ensures forall r :: r in revoked
                <==> r in certs.Values && r.revoked && !(r.initial.expires < reading[r.initial.keyId])
    {
      revoked := [];
      var all;
      all, reading, readings := List(false, now);
      for i := 0 to |all|
        invariant NoDuplicates(revoked)
        invariant forall r :: r in revoked <==> r in all[..i] && r.revoked
      {
        assert all[..i + 1] == all[..i] + [all[i]];
        if all[i].revoked {
          revoked := revoked + [all[i]];
        }
      }
      assert all[..|all|] == all;
    }
  }
}
