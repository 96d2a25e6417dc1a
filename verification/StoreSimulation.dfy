/** The two stores behind the CertStorer interface, run side by side on the same operations. */
module StoreSimulation {
  import opened Common
  import opened Records
  import Mem = MemoryStore
  import Sql = SqlStore

  /**
   * The calls of the interface. For a listing, `reading` is the clock reading at which the memory store meets each
   * record, and `query` is the one reading the SQL store takes.
   */
  datatype Op =
    | Get(id: string)
    | SetRecord(rec: Record)
    | List(includeExpired: bool, reading: string -> Time, query: Time)
    | Revoke(ids: seq<string>)
    | GetRevoked(reading: string -> Time, query: Time)

  /** What the caller sees. Lists are compared as sets; a failed call and a panic are told apart. */
  datatype Reply = Found(rec: Record) | Missing | Done | Refused | Panicked | Records(recs: set<Record>)

  /** What the walk over the map keeps, of all records or of the flagged ones. */
  function Unexpired(certs: Mem.Certs, flagged: bool, reading: string -> Time): set<Record> {
    set id | id in certs && !(certs[id].expires < reading(id)) && (flagged ==> certs[id].revoked) :: certs[id]
  }

  /** What the query selects, of all rows or of the flagged ones. */
  function Current(rows: Sql.Table, flagged: bool, query: Time): set<Record> {
    set r | r in rows && r.expires >= query && (flagged ==> r.revoked)
  }

  function MemStep(certs: Mem.Certs, op: Op): (Mem.Certs, Reply) {
    match op
    case Get(id) => (certs, if id in certs then Found(certs[id]) else Missing)
    case SetRecord(rec) => (certs[rec.keyId := rec], Done)
    case List(all, reading, _) => (certs, Records(if all then certs.Values else Unexpired(certs, false, reading)))
    case Revoke(ids) =>
      var (after, completed) := Mem.RevokeInOrder(certs, ids);
      (after, if completed then Done else Panicked)
    case GetRevoked(reading, _) => (certs, Records(Unexpired(certs, true, reading)))
  }

  function SqlStep(rows: Sql.Table, op: Op): (Sql.Table, Reply) {
    match op
    case Get(id) =>
      var found := Sql.WithKey(rows, id);
      (rows, if found == [] then Missing else Found(found[0]))
    case SetRecord(rec) =>
      if Sql.HasKey(rows, rec.keyId) then (rows, Refused) else (rows + [rec.(revoked := false)], Done)
    case List(all, _, query) => (rows, Records(if all then set r | r in rows else Current(rows, false, query)))
    case Revoke(ids) => if ids == [] then (rows, Refused) else (Sql.Update(rows, ids), Done)
    case GetRevoked(_, query) => (rows, Records(Current(rows, true, query)))
  }

  /** The table and the map hold the same records. */
  ghost predicate Same(certs: Mem.Certs, rows: Sql.Table) {
    && Sql.UniqueKeys(rows)
    && (forall i :: 0 <= i < |rows| ==> rows[i].keyId in certs && certs[rows[i].keyId] == rows[i])
    && (forall id :: id in certs ==> certs[id].keyId == id && certs[id] in rows)
  }

  /** The instant lies between two clock readings, counting the earlier but not the later. */
  predicate Between(t: Time, a: Time, b: Time) {
    a <= t < b || b <= t < a
  }

  /**
   * What must hold for the two stores to be interchangeable: fresh unrevoked records, non-empty lists of known ids,
   * and no record that expires between the two readings that meet it.
   */
  predicate Admissible(certs: Mem.Certs, op: Op) {
    match op
    case Get(_) => true
    case SetRecord(rec) => rec.keyId !in certs && !rec.revoked
    case List(all, reading, query) =>
      all || forall id :: id in certs ==> !Between(certs[id].expires, reading(id), query)
    case Revoke(ids) => ids != [] && forall id :: id in ids ==> id in certs
    case GetRevoked(reading, query) =>
      forall id :: id in certs && certs[id].revoked ==> !Between(certs[id].expires, reading(id), query)
  }

  lemma SameValues(certs: Mem.Certs, rows: Sql.Table)
    requires Same(certs, rows)
    ensures forall r :: r in certs.Values <==> r in rows
    ensures forall id :: Sql.HasKey(rows, id) <==> id in certs
  {
  }

  lemma GetAgrees(certs: Mem.Certs, rows: Sql.Table, id: string)
    requires Same(certs, rows)
    ensures MemStep(certs, Get(id)).1 == SqlStep(rows, Get(id)).1
  {
    var found := Sql.WithKey(rows, id);
    if id in certs {
      assert certs[id] in found;
    }
    if found != [] {
      assert found[0] in found;
    }
  }

  lemma SetRecordAgrees(certs: Mem.Certs, rows: Sql.Table, rec: Record)
    requires Same(certs, rows)
    ensures var (m, s) := (MemStep(certs, SetRecord(rec)), SqlStep(rows, SetRecord(rec)));
            Same(m.0, s.0) && m.1 == s.1 <==> Admissible(certs, SetRecord(rec))
  {
    SameValues(certs, rows);
    var (m, s) := (MemStep(certs, SetRecord(rec)), SqlStep(rows, SetRecord(rec)));
    if rec.keyId !in certs {
      assert s.0[|rows|].keyId == rec.keyId;
      forall id | id in m.0 && id != rec.keyId ensures m.0[id].keyId == id && m.0[id] in s.0 {
        assert certs[id] in rows;
      }
    }
  }

  /** The table with the named rows flagged holds the same records as the map with the named records flagged. */
  lemma RevokeAgrees(certs: Mem.Certs, rows: Sql.Table, ids: seq<string>, after: Mem.Certs)
    requires Same(certs, rows)
    requires after.Keys == certs.Keys
    requires forall id :: id in certs ==> after[id] == if id in ids then certs[id].(revoked := true) else certs[id]
    ensures Same(after, Sql.Update(rows, ids))
  {
    var updated := Sql.Update(rows, ids);
    forall id | id in after ensures after[id].keyId == id && after[id] in updated {
      var i :| 0 <= i < |rows| && rows[i] == certs[id];
      assert updated[i] == after[id];
    }
  }

  lemma UnexpiredById(certs: Mem.Certs, flagged: bool, reading: string -> Time, id: string)
    requires id in certs && forall x :: x in certs ==> certs[x].keyId == x
    ensures certs[id] in Unexpired(certs, flagged, reading)
            <==> !(certs[id].expires < reading(id)) && (flagged ==> certs[id].revoked)
  {
  }

  /** A listing agrees exactly when no record it is about expires between its two readings. */
  lemma ListAgrees(certs: Mem.Certs, rows: Sql.Table, flagged: bool, reading: string -> Time, query: Time)
    requires Same(certs, rows)
    ensures Unexpired(certs, flagged, reading) == Current(rows, flagged, query)
            <==> forall id :: id in certs && (flagged ==> certs[id].revoked) ==>
                   !Between(certs[id].expires, reading(id), query)
  {
    SameValues(certs, rows);
    if id :| id in certs && (flagged ==> certs[id].revoked) && Between(certs[id].expires, reading(id), query) {
      UnexpiredById(certs, flagged, reading, id);
      assert certs[id] in Unexpired(certs, flagged, reading) <==> certs[id] !in Current(rows, flagged, query);
    } else {
      forall r | r in Current(rows, flagged, query) ensures r in Unexpired(certs, flagged, reading) {
        assert certs[r.keyId] == r;
      }
    }
  }

  /** One operation: state and reply stay in step exactly when the operation is admissible. */
  lemma StepAgrees(certs: Mem.Certs, rows: Sql.Table, op: Op)
    requires Same(certs, rows)
    ensures Same(MemStep(certs, op).0, SqlStep(rows, op).0) && MemStep(certs, op).1 == SqlStep(rows, op).1
            <==> Admissible(certs, op)
  {
    match op
    case Get(id) => GetAgrees(certs, rows, id);
    case SetRecord(rec) => SetRecordAgrees(certs, rows, rec);
    case Revoke(ids) =>
      if Admissible(certs, op) {
        forall id | id in certs
          ensures Mem.RevokeInOrder(certs, ids).0[id] == if id in ids then certs[id].(revoked := true) else certs[id]
        {
          Mem.RevokeFlagsKnownPrefix(certs, ids, id);
        }
        RevokeAgrees(certs, rows, ids, Mem.RevokeInOrder(certs, ids).0);
      }
    case List(all, reading, query) =>
      ListAgrees(certs, rows, false, reading, query);
      if all {
        SameValues(certs, rows);
        assert certs.Values == set r | r in rows;
      }
    case GetRevoked(reading, query) => ListAgrees(certs, rows, true, reading, query);
  }

  /** Along the whole run the stores hold the same records and every reply is the same. */
  ghost predicate RunsAgree(certs: Mem.Certs, rows: Sql.Table, ops: seq<Op>)
    decreases |ops|
  {
    && Same(certs, rows)
    && (ops == [] ||
        (&& MemStep(certs, ops[0]).1 == SqlStep(rows, ops[0]).1
         && RunsAgree(MemStep(certs, ops[0]).0, SqlStep(rows, ops[0]).0, ops[1..])))
  }

  ghost predicate AdmissibleRun(certs: Mem.Certs, ops: seq<Op>)
    decreases |ops|
  {
    ops == [] || (Admissible(certs, ops[0]) && AdmissibleRun(MemStep(certs, ops[0]).0, ops[1..]))
  }

  /** From equal contents, the stores are indistinguishable on a run exactly when every step of it is admissible. */
  lemma {:induction false} StoresSimulate(certs: Mem.Certs, rows: Sql.Table, ops: seq<Op>)
    requires Same(certs, rows)
    ensures RunsAgree(certs, rows, ops) <==> AdmissibleRun(certs, ops)
    decreases |ops|
  {
    if ops != [] {
      StepAgrees(certs, rows, ops[0]);
      var (m, s) := (MemStep(certs, ops[0]), SqlStep(rows, ops[0]));
      if Same(m.0, s.0) {
        StoresSimulate(m.0, s.0, ops[1..]);
      }
    }
  }

  /** Both stores start empty, so the statement covers every run of the interface. */
  lemma StoresSimulateFromEmpty(ops: seq<Op>)
    ensures RunsAgree(map[], [], ops) <==> AdmissibleRun(map[], ops)
  {
    StoresSimulate(map[], [], ops);
  }

  ghost predicate Within(reading: string -> Time, first: Time, last: Time) {
    forall id :: first <= reading(id) <= last
  }

  /**
   * A clock that moves from `first` to `last` during a listing never shows, whatever the order of the walk and the
   * moment of the query, exactly when no record expires in that interval.
   */
  lemma MovingClockIff(certs: Mem.Certs, first: Time, last: Time)
    requires first <= last
    ensures (forall reading: string -> Time, query: Time :: Within(reading, first, last) && first <= query <= last ==>
               Admissible(certs, List(false, reading, query)))
            <==> forall id :: id in certs ==> !(first <= certs[id].expires < last)
  {
    if id :| id in certs && first <= certs[id].expires < last {
      var late: string -> Time := _ => last;
      assert Within(late, first, last);
      assert Between(certs[id].expires, late(id), first);
      assert !Admissible(certs, List(false, late, first));
    }
  }

  // ---- the stores themselves ----

  /** The same call, apart from when the memory store reads the clock. */
  ghost predicate SameCall(op: Op, done: Op) {
    match op
    case List(all, _, query) => done.List? && done.includeExpired == all && done.query == query
    case GetRevoked(_, query) => done.GetRevoked? && done.query == query
    case _ => done == op
  }

  ghost predicate ReadsWithin(op: Op, certs: Mem.Certs, first: Time, last: Time) {
    op.List? || op.GetRevoked? ==> forall id :: id in certs ==> first <= op.reading(id) <= last
  }

  /** The values of listed records, picked by key id. */
  lemma ListedValues(store: Mem.Store, recs: seq<Mem.CertRecord>, values: set<Record>)
    requires store.Valid() && forall r :: r in recs ==> r in store.certs.Values
    requires forall id :: id in store.certs ==> (store.certs[id] in recs <==> store.certs[id].Value() in values)
    requires forall v :: v in values ==> v in store.Contents().Values
    ensures (set r | r in recs :: r.Value()) == values
  {
    forall v | v in values ensures v in set r | r in recs :: r.Value() {
      var id :| id in store.certs && store.certs[id].Value() == v;
      assert store.certs[id] in recs;
    }
  }

  /** Makes the call on the memory store, whose clock readings `now` decide when each record is met. */
  method ApplyMem(store: Mem.Store, op: Op, now: nat -> Time)
    returns (reply: Reply, ghost done: Op, ghost readings: nat)
    requires store.Valid() && NonDecreasing(now)
    modifies store, store.certs.Values
    ensures store.Valid() && SameCall(op, done)
    ensures ReadsWithin(done, old(store.Contents()), now(0), now(LastOf(readings)))
    ensures (store.Contents(), reply) == MemStep(old(store.Contents()), done)
  {
    done, readings := op, 0;
    match op
    case Get(id) =>
      var r := store.Get(id);
      reply := if r.Some? then Found(r.value.Value()) else Missing;
    case SetRecord(rec) =>
      var r := new Mem.CertRecord(rec);
      store.SetRecord(r);
      reply := Done;
    case List(all, _, query) =>
      reply, done, readings := ListMem(store, all, now, query);
    case Revoke(ids) =>
      var completed := store.Revoke(ids);
      reply := if completed then Done else Panicked;
    case GetRevoked(_, query) =>
      reply, done, readings := GetRevokedMem(store, now, query);
  }

  method ListMem(store: Mem.Store, all: bool, now: nat -> Time, query: Time)
    returns (reply: Reply, ghost done: Op, ghost readings: nat)
    requires store.Valid() && NonDecreasing(now)
    ensures done.List? && done.includeExpired == all && done.query == query
    ensures ReadsWithin(done, store.Contents(), now(0), now(LastOf(readings)))
    ensures reply == MemStep(store.Contents(), done).1
  {
    var recs;
    ghost var reading;
    recs, reading, readings := store.List(all, now);
    done := List(all, id => if id in reading then reading[id] else now(0), query);
    ghost var certs := store.Contents();
    ghost var values := MemStep(certs, done).1.recs;
    forall id | id in certs ensures store.certs[id] in recs <==> store.certs[id].Value() in values {
      assert certs[id] == store.certs[id].Value() && certs[id] in certs.Values;
      UnexpiredById(certs, false, done.reading, id);
    }
    ListedValues(store, recs, values);
    reply := Records(set r | r in recs :: r.Value());
  }

  method GetRevokedMem(store: Mem.Store, now: nat -> Time, query: Time)
    returns (reply: Reply, ghost done: Op, ghost readings: nat)
    requires store.Valid() && NonDecreasing(now)
    ensures done.GetRevoked? && done.query == query
    ensures ReadsWithin(done, store.Contents(), now(0), now(LastOf(readings)))
    ensures reply == MemStep(store.Contents(), done).1
  {
    var recs;
    ghost var reading;
    recs, reading, readings := store.GetRevoked(now);
    done := GetRevoked(id => if id in reading then reading[id] else now(0), query);
    ghost var certs := store.Contents();
    ghost var values := MemStep(certs, done).1.recs;
    forall id | id in certs ensures store.certs[id] in recs <==> store.certs[id].Value() in values {
      assert certs[id] == store.certs[id].Value();
      UnexpiredById(certs, true, done.reading, id);
    }
    ListedValues(store, recs, values);
    reply := Records(set r | r in recs :: r.Value());
  }

  /** Makes the call on the SQL store. */
  method ApplySql(store: Sql.Store, op: Op) returns (reply: Reply)
    requires Sql.UniqueKeys(store.rows)
    modifies store
    ensures Sql.UniqueKeys(store.rows)
    ensures (store.rows, reply) == SqlStep(old(store.rows), op)
  {
    match op
    case Get(id) =>
      var r := store.Get(id);
      reply := if r.Some? then Found(r.value) else Missing;
    case SetRecord(rec) =>
      var ok := store.SetRecord(rec);
      reply := if ok then Done else Refused;
    case List(all, _, query) =>
      var recs := store.List(all, query);
      reply := Records(set r | r in recs);
      assert (set r | r in recs) == SqlStep(store.rows, op).1.recs;
    case Revoke(ids) =>
      var ok := store.Revoke(ids);
      reply := if ok then Done else Refused;
      assert store.rows == if ok then Sql.Update(old(store.rows), ids) else old(store.rows);
    case GetRevoked(_, query) =>
      var recs := store.GetRevoked(query);
      reply := Records(set r | r in recs);
      assert (set r | r in recs) == SqlStep(store.rows, op).1.recs;
  }
}
