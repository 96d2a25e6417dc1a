/**
 * The life of a certificate over whole runs of the server: signing, recording, revoking and publishing the
 * revocation list, on either store. A ledger of everything ever issued says what the list ought to contain.
 */
module Lifecycle {
  import opened Common
  import opened Records
  import KeyId
  import Signer
  import Mem = MemoryStore
  import SqlTable = SqlStore
  import Stores = StoreSimulation

  datatype Backend = Memory | Sql

  datatype Config = Config(backend: Backend, maxAge: int, principals: seq<string>)

  /**
   * One issued certificate: the end of its validity as the certificate itself states it, an unsigned number of
   * seconds, and whether its key id has been revoked since.
   */
  datatype Entry = Entry(keyId: string, expires: Time, revoked: bool)

  datatype State = State(store: map<string, Record>, now: Time, ledger: seq<Entry>)

  /**
   * A Sign event is the moment `at` when the record is stored; the certificate was stamped from the clock readings
   * t0, t1 and t2 at any time before. Stamping touches nothing shared, so this covers signatures that overlap.
   */
  datatype Event =
    | Sign(user: string, until: Time, message: string, raw: string, t0: Time, t1: Time, t2: Time, at: Time)
    | Revoke(ids: seq<string>)
    | Tick(to: Time)

  function Expiry(c: Config, e: Event): Time
    requires e.Sign?
  {
    Signer.Clamp(e.until, e.t0 + c.maxAge)
  }

  /** The clock does not go back, and instants have 64-bit second counts. */
  predicate Enabled(c: Config, s: State, e: Event) {
    match e
    case Sign(_, _, _, _, t0, t1, t2, at) => 
      t0 <= t1 <= t2 <= at && s.now <= at && IsInt64(Unix(at)) && IsInt64(Unix(Expiry(c, e)))
    case Revoke(_) => true
    case Tick(to) => s.now <= to && IsInt64(Unix(to))
  }

  function Issued(c: Config, e: Event): (cert: Cert)
    requires e.Sign?
    ensures ValidCert(cert)
  {
    Signer.Stamp(e.user, Expiry(c, e), c.principals, e.t1, e.t2, e.raw)
  }

  function Recorded(c: Config, e: Event): Record
    requires e.Sign?
  {
    MakeRecord(Issued(c, e)).(message := e.message)
  }

  /** The memory store overwrites; the table refuses a repeated key id, and the handler ignores the refusal. */
  function Put(b: Backend, store: map<string, Record>, rec: Record): map<string, Record> {
    if b.Sql? && rec.keyId in store then store else store[rec.keyId := rec]
  }

  /** The ids a Revoke call gets through: the memory store stops at an unknown one. */
  function Processed(b: Backend, store: map<string, Record>, ids: seq<string>): seq<string> {
    if b.Memory? then Mem.KnownPrefix(store.Keys, ids) else ids
  }

  function Flagged(store: map<string, Record>, ids: seq<string>): map<string, Record> {
    map id | id in store :: store[id].(revoked := store[id].revoked || id in ids)
  }

  function Marked(ledger: seq<Entry>, ids: seq<string>): seq<Entry> {
    seq(|ledger|, i requires 0 <= i < |ledger| =>
      ledger[i].(revoked := ledger[i].revoked || ledger[i].keyId in ids))
  }

  function Step(c: Config, s: State, e: Event): State {
    match e
    case Sign(_, _, _, _, _, _, _, at) =>
      var entry := Entry(Issued(c, e).keyId, FromUnix(Issued(c, e).validBefore), false);
      State(Put(c.backend, s.store, Recorded(c, e)), at, s.ledger + [entry])
    case Revoke(ids) =>
      var done := Processed(c.backend, s.store, ids);
      s.(store := Flagged(s.store, done), ledger := Marked(s.ledger, done))
    case Tick(to) => s.(now := to)
  }

  /** The Revoke step on the memory store is the store's own Revoke. */
  lemma RevokeIsInOrder(c: Config, s: State, ids: seq<string>)
    requires c.backend.Memory?
    ensures Step(c, s, Revoke(ids)).store == Mem.RevokeInOrder(s.store, ids).0
  {
    forall id | id in s.store ensures Mem.RevokeInOrder(s.store, ids).0[id] == Step(c, s, Revoke(ids)).store[id] {
      Mem.RevokeFlagsKnownPrefix(s.store, ids, id);
    }
  }

  /** The Revoke step on the SQL store is its UPDATE, and an empty list changes nothing. */
  lemma RevokeIsSqlUpdate(c: Config, s: State, rows: SqlTable.Table, ids: seq<string>)
    requires c.backend.Sql? && Stores.Same(s.store, rows)
    ensures Stores.Same(Step(c, s, Revoke(ids)).store, Stores.SqlStep(rows, Stores.Revoke(ids)).0)
  {
    var after := Flagged(s.store, ids);
    if ids == [] {
      assert after == s.store;
    } else {
      Stores.RevokeAgrees(s.store, rows, ids, after);
    }
  }

  /** Storing a record is the SetRecord of either store. */
  lemma PutIsSetRecord(store: map<string, Record>, rows: SqlTable.Table, rec: Record)
    requires Stores.Same(store, rows) && !rec.revoked
    ensures Put(Memory, store, rec) == Stores.MemStep(store, Stores.SetRecord(rec)).0
    ensures Stores.Same(Put(Sql, store, rec), Stores.SqlStep(rows, Stores.SetRecord(rec)).0)
  {
    Stores.SameValues(store, rows);
    Stores.SetRecordAgrees(store, rows, rec);
  }

  /** The key ids of the records GetRevoked returns at time t, see PublishedIsGetRevoked. */
  function Published(store: map<string, Record>, t: Time): set<string> {
    set id | id in store && store[id].revoked && !(store[id].expires < t)
  }

  /** The key ids that ought to be listed: of every certificate ever issued, revoked and not past its ValidBefore. */
  function Due(ledger: seq<Entry>, t: Time): set<string> {
    set i | 0 <= i < |ledger| && ledger[i].revoked && t <= ledger[i].expires :: ledger[i].keyId
  }

  /** From now on, the list contains exactly what it ought to. */
  ghost predicate ListExact(s: State) {
    forall t :: s.now <= t ==> Published(s.store, t) == Due(s.ledger, t)
  }

  /** The entry accounts for the record: same key id, same flag, valid at least as long. */
  predicate Accounts(e: Entry, rec: Record) {
    e.keyId == rec.keyId && e.revoked == rec.revoked && rec.expires <= e.expires
  }

  /** The store holds only issued certificates, and something for each of their key ids. */
  ghost predicate Backed(s: State) {
    && (forall id :: id in s.store ==>
          && s.store[id].keyId == id && IsInt64(Unix(s.store[id].expires))
          && exists i :: 0 <= i < |s.ledger| && Accounts(s.ledger[i], s.store[id]))
    && (forall e :: e in s.ledger ==> e.keyId in s.store)
  }

  /** Every unexpired certificate is stood for by the record under its key id. */
  ghost predicate Safe(s: State) {
    forall e :: e in s.ledger && s.now <= e.expires && e.keyId in s.store ==>
      e.expires <= s.store[e.keyId].expires && (e.revoked ==> s.store[e.keyId].revoked)
  }

  /**
   * When a record may be stored at `at` although its key id is in use. Two certificates for one user in one second
   * share an id; the memory store then forgets the older record, and the table the newer one.
   */
  predicate ReuseAllowed(b: Backend, store: map<string, Record>, rec: Record, at: Time) {
    rec.keyId in store ==>
      var held := store[rec.keyId];
      if b.Memory? then held.expires < at || (!held.revoked && held.expires <= rec.expires)
      else rec.expires < at || rec.expires <= held.expires
  }

  predicate MayReuse(c: Config, s: State, e: Event)
    requires e.Sign?
  {
    ReuseAllowed(c.backend, s.store, Recorded(c, e), e.at)
  }

  /**
   * The expiry does not lie before the epoch. An earlier one becomes a ValidBefore in the far future, while its
   * record reads as long expired. With a clock past the epoch it is the request that decides: a request without an
   * expiry carries the zero time, which lies in the year 1.
   */
  predicate Timely(c: Config, e: Event)
    requires e.Sign?
  {
    0 <= Unix(Expiry(c, e))
  }

  predicate Guarded(c: Config, s: State, e: Event) {
    e.Sign? ==> Timely(c, e) && MayReuse(c, s, e)
  }

  // ---- single steps ----

  lemma ProcessedOne(b: Backend, store: map<string, Record>, id: string)
    requires id in store
    ensures Processed(b, store, [id]) == [id]
  {
    assert [id][1..] == [];
    assert Mem.KnownPrefix(store.Keys, []) == [];
  }

  /** The record is that of the user, the request and the certificate. */
  lemma RecordedFields(c: Config, e: Event)
    requires e.Sign? && IsInt64(Unix(Expiry(c, e)))
    ensures var r := Recorded(c, e);
            && r.keyId == KeyId.KeyId(e.user, Unix(e.t1)) == Issued(c, e).keyId
            && r.expires == FromUnix(Unix(Expiry(c, e))) && !r.revoked
            && IsInt64(Unix(r.expires))
            && r.principals == [e.user] + c.principals && r.raw == e.raw && r.message == e.message
    ensures if Timely(c, e) then FromUnix(Issued(c, e).validBefore) == Recorded(c, e).expires
            else FromUnix(Issued(c, e).validBefore) >= FromUnix(TWO_63)
  {
    Uint64RoundTrip(Unix(Expiry(c, e)));
  }

  lemma BelowTwo63(t: Time)
    requires IsInt64(Unix(t))
    ensures t < FromUnix(TWO_63)
  {
  }

  lemma StepKeepsBacked(c: Config, s: State, e: Event)
    requires Backed(s) && Enabled(c, s, e)
    ensures Backed(Step(c, s, e))
  {
    var s' := Step(c, s, e);
    match e
    case Sign(_, _, _, _, _, _, _, _) =>
      RecordedFields(c, e);
      assert forall i :: 0 <= i < |s.ledger| ==> s'.ledger[i] == s.ledger[i];
      if c.backend.Memory? || Recorded(c, e).keyId !in s.store {
        BelowTwo63(Recorded(c, e).expires);
        assert Accounts(s'.ledger[|s.ledger|], s'.store[Recorded(c, e).keyId]);
      }
    case Revoke(ids) =>
      forall id | id in s'.store ensures exists i :: 0 <= i < |s'.ledger| && Accounts(s'.ledger[i], s'.store[id]) {
        var i :| 0 <= i < |s.ledger| && Accounts(s.ledger[i], s.store[id]);
        assert Accounts(s'.ledger[i], s'.store[id]);
      }
      forall x | x in s'.ledger ensures x.keyId in s'.store {
        var i :| 0 <= i < |s.ledger| && s'.ledger[i] == x;
        assert s.ledger[i] in s.ledger;
      }
    case Tick(_) =>
  }

  /** Revoking and waiting never make a safe state unsafe. */
  lemma OtherStepsKeepSafe(c: Config, s: State, e: Event)
    requires Safe(s) && Enabled(c, s, e) && !e.Sign?
    ensures Safe(Step(c, s, e))
  {
  }

  /** The certificate of an untimely signature outlives any record. */
  lemma UntimelyIsUnsafe(c: Config, s: State, e: Event)
    requires Backed(s) && Enabled(c, s, e) && e.Sign? && !Timely(c, e)
    ensures !Safe(Step(c, s, e))
  {
    RecordedFields(c, e);
    var s' := Step(c, s, e);
    assert s'.ledger[|s.ledger|] in s'.ledger;
    BelowTwo63(e.at);
    BelowTwo63(s'.store[Recorded(c, e).keyId].expires);
  }

  /** Storing the record of a certificate that ends with it. */
  lemma PutSafeIff(b: Backend, s: State, rec: Record, at: Time)
    requires Backed(s) && Safe(s) && s.now <= at && !rec.revoked
    ensures Safe(State(Put(b, s.store, rec), at, s.ledger + [Entry(rec.keyId, rec.expires, false)]))
            <==> ReuseAllowed(b, s.store, rec, at)
  {
    var entry := Entry(rec.keyId, rec.expires, false);
    var ledger := s.ledger + [entry];
    assert ledger[|s.ledger|] == entry;
    assert forall x :: x in ledger <==> x in s.ledger || x == entry;
    if rec.keyId in s.store && b.Memory? {
      // an entry that the overwritten record stood for
      var i :| 0 <= i < |s.ledger| && Accounts(s.ledger[i], s.store[rec.keyId]);
      assert s.ledger[i] in ledger;
    }
  }

  /** A signature keeps a safe state safe exactly when its expiry is timely and it may reuse its key id. */
  lemma SignSafeIff(c: Config, s: State, e: Event)
    requires Backed(s) && Safe(s) && Enabled(c, s, e) && e.Sign?
    ensures Safe(Step(c, s, e)) <==> Timely(c, e) && MayReuse(c, s, e)
  {
    if Timely(c, e) {
      RecordedFields(c, e);
      PutSafeIff(c.backend, s, Recorded(c, e), e.at);
    } else {
      UntimelyIsUnsafe(c, s, e);
    }
  }

  // ---- what safety means ----

  /**
   * The published ids are the key ids of what either store returns: of the rows that the query selects, and of the
   * records that the memory store meets between two clock readings, as far as these two tell.
   */
  lemma PublishedIsGetRevoked(s: State, rows: SqlTable.Table, op: Stores.Op, first: Time, last: Time)
    requires Backed(s) && Stores.Same(s.store, rows)
    requires op.GetRevoked? && Stores.ReadsWithin(op, s.store, first, last)
    ensures var ids := set r | r in Stores.MemStep(s.store, op).1.recs :: r.keyId;
            Published(s.store, last) <= ids <= Published(s.store, first)
    ensures Published(s.store, op.query) == set r | r in Stores.SqlStep(rows, op).1.recs :: r.keyId
  {
  }

  /** On every state, the list never names a certificate that was not revoked or has expired. */
  lemma PublishedIsDue(s: State, t: Time)
    requires Backed(s)
    ensures Published(s.store, t) <= Due(s.ledger, t)
  {
  }

  lemma SafeIsExact(s: State)
    requires Backed(s) && Safe(s)
    ensures ListExact(s)
  {
  }

  /** A certificate that outlives its record is off the list once revoked. */
  lemma ShortRecordLoses(c: Config, s: State, i: nat)
    requires i < |s.ledger| && s.now <= s.ledger[i].expires && s.ledger[i].keyId in s.store
    requires s.store[s.ledger[i].keyId].expires < s.ledger[i].expires
    ensures !ListExact(Step(c, s, Revoke([s.ledger[i].keyId])))
  {
    var e := s.ledger[i];
    var s' := Step(c, s, Revoke([e.keyId]));
    ProcessedOne(c.backend, s.store, e.keyId);
    var t := if s.now > s.store[e.keyId].expires then s.now else s.store[e.keyId].expires + 1;
    assert s'.ledger[i].revoked && e.keyId in Due(s'.ledger, t);
    assert e.keyId !in Published(s'.store, t);
  }

  /** Without safety a revocation is missing from the list, or will be once its key id is revoked. */
  lemma UnsafeLoses(c: Config, s: State)
    requires Backed(s) && !Safe(s)
    ensures !ListExact(s) || exists id :: id in s.store && !ListExact(Step(c, s, Revoke([id])))
  {
    var i :| 0 <= i < |s.ledger| && s.now <= s.ledger[i].expires && s.ledger[i].keyId in s.store
             && !(s.ledger[i].expires <= s.store[s.ledger[i].keyId].expires
                  && (s.ledger[i].revoked ==> s.store[s.ledger[i].keyId].revoked));
    var e := s.ledger[i];
    if e.expires <= s.store[e.keyId].expires {
      assert e.keyId in Due(s.ledger, s.now) && e.keyId !in Published(s.store, s.now);
    } else {
      ShortRecordLoses(c, s, i);
    }
  }

  /** A state is safe exactly when its list is right, and stays right whichever certificate is revoked next. */
  lemma SafeIffExact(c: Config, s: State)
    requires Backed(s)
    ensures Safe(s) <==> ListExact(s) && forall id :: id in s.store ==> ListExact(Step(c, s, Revoke([id])))
  {
    if Safe(s) {
      SafeIsExact(s);
      forall id | id in s.store ensures ListExact(Step(c, s, Revoke([id]))) {
        OtherStepsKeepSafe(c, s, Revoke([id]));
        StepKeepsBacked(c, s, Revoke([id]));
        SafeIsExact(Step(c, s, Revoke([id])));
      }
    } else {
      UnsafeLoses(c, s);
    }
  }

  // ---- whole runs ----

  ghost predicate CanRun(c: Config, s: State, events: seq<Event>)
    decreases |events|
  {
    events == [] || (Enabled(c, s, events[0]) && CanRun(c, Step(c, s, events[0]), events[1..]))
  }

  function Run(c: Config, s: State, events: seq<Event>): State
    decreases |events|
  {
    if events == [] then s else Run(c, Step(c, s, events[0]), events[1..])
  }

  ghost predicate GuardedRun(c: Config, s: State, events: seq<Event>)
    decreases |events|
  {
    events == [] || (Guarded(c, s, events[0]) && GuardedRun(c, Step(c, s, events[0]), events[1..]))
  }

  /** Over every run at all, the list names only certificates that were revoked earlier and have not expired. */
  lemma {:induction false} RunPublishesOnlyDue(c: Config, s: State, events: seq<Event>, t: Time)
    requires Backed(s) && CanRun(c, s, events)
    ensures Published(Run(c, s, events).store, t) <= Due(Run(c, s, events).ledger, t)
    ensures Backed(Run(c, s, events))
    decreases |events|
  {
    if events == [] {
      PublishedIsDue(s, t);
    } else {
      StepKeepsBacked(c, s, events[0]);
      RunPublishesOnlyDue(c, Step(c, s, events[0]), events[1..], t);
    }
  }

  /** The safe state after each step of the run. */
  ghost predicate SafeThroughout(c: Config, s: State, events: seq<Event>)
    decreases |events|
  {
    Safe(s) && (events == [] || SafeThroughout(c, Step(c, s, events[0]), events[1..]))
  }

  /** A run stays safe throughout exactly when every signature in it is timely and may reuse its key id. */
  lemma {:induction false} RunSafeIff(c: Config, s: State, events: seq<Event>)
    requires Backed(s) && Safe(s) && CanRun(c, s, events)
    ensures SafeThroughout(c, s, events) <==> GuardedRun(c, s, events)
    ensures GuardedRun(c, s, events) ==> Safe(Run(c, s, events)) && ListExact(Run(c, s, events))
    decreases |events|
  {
    if events == [] {
      SafeIsExact(s);
    } else {
      var e := events[0];
      StepKeepsBacked(c, s, e);
      if e.Sign? {
        SignSafeIff(c, s, e);
      } else {
        OtherStepsKeepSafe(c, s, e);
      }
      if Safe(Step(c, s, e)) {
        RunSafeIff(c, Step(c, s, e), events[1..]);
      }
    }
  }

  /** No user is signed twice within one second of the clock. */
  predicate DistinctSignings(events: seq<Event>) {
    forall i, j :: 0 <= i < j < |events| && events[i].Sign? && events[j].Sign? ==>
      !(events[i].user == events[j].user && Unix(events[i].t1) == Unix(events[j].t1))
  }

  predicate Unused(s: State, events: seq<Event>) {
    forall i :: 0 <= i < |events| && events[i].Sign? ==> KeyId.KeyId(events[i].user, Unix(events[i].t1)) !in s.store
  }

  predicate AllTimely(c: Config, events: seq<Event>) {
    forall i :: 0 <= i < |events| && events[i].Sign? ==> Timely(c, events[i])
  }

  /** A step uses none of the key ids that later signatures will. */
  lemma StaysUnused(c: Config, s: State, events: seq<Event>)
    requires events != [] && DistinctSignings(events) && Unused(s, events) && Enabled(c, s, events[0])
    ensures Unused(Step(c, s, events[0]), events[1..])
  {
    var e, rest := events[0], events[1..];
    forall i | 0 <= i < |rest| && rest[i].Sign?
      ensures KeyId.KeyId(rest[i].user, Unix(rest[i].t1)) !in Step(c, s, e).store
    {
      assert rest[i] == events[i + 1];
      if e.Sign? {
        RecordedFields(c, e);
        KeyId.KeyIdInjective(e.user, Unix(e.t1), rest[i].user, Unix(rest[i].t1));
      }
    }
  }

  lemma AllTimelyFirst(c: Config, events: seq<Event>)
    requires events != []
    ensures AllTimely(c, events) <==> (events[0].Sign? ==> Timely(c, events[0])) && AllTimely(c, events[1..])
    ensures DistinctSignings(events) ==> DistinctSignings(events[1..])
  {
    assert forall i :: 0 < i < |events| ==> events[i] == events[1..][i - 1];
  }

  lemma {:induction false} DistinctIsGuarded(c: Config, s: State, events: seq<Event>)
    requires CanRun(c, s, events) && DistinctSignings(events) && Unused(s, events)
    ensures GuardedRun(c, s, events) <==> AllTimely(c, events)
    decreases |events|
  {
    if events != [] {
      var e := events[0];
      if e.Sign? {
        RecordedFields(c, e);
      }
      StaysUnused(c, s, events);
      AllTimelyFirst(c, events);
      DistinctIsGuarded(c, Step(c, s, e), events[1..]);
    }
  }

  /** The state of a server that has issued nothing. */
  function Initial(now: Time): State {
    State(map[], now, [])
  }

  /**
   * On either store, if no user is signed twice in one second, the run is safe throughout exactly when every expiry
   * is timely. The list is then exact at every later moment: it holds the key id of each certificate revoked so far
   * and not past its ValidBefore, and no other.
   */
  lemma DistinctRunIsExact(c: Config, now: Time, events: seq<Event>)
    requires CanRun(c, Initial(now), events) && DistinctSignings(events)
    ensures SafeThroughout(c, Initial(now), events) <==> AllTimely(c, events)
    ensures AllTimely(c, events) ==> ListExact(Run(c, Initial(now), events))
  {
    DistinctIsGuarded(c, Initial(now), events);
    RunSafeIff(c, Initial(now), events);
  }

  lemma {:induction false} LedgerGrows(c: Config, s: State, events: seq<Event>, i: nat)
    requires i < |s.ledger|
    ensures var l := Run(c, s, events).ledger;
            && |s.ledger| <= |l|
            && l[i].keyId == s.ledger[i].keyId && l[i].expires == s.ledger[i].expires
            && (s.ledger[i].revoked ==> l[i].revoked)
    decreases |events|
  {
    if events != [] {
      LedgerGrows(c, Step(c, s, events[0]), events[1..], i);
    }
  }

  /** Once revoked, a certificate stays on the list through any allowed continuation until it has expired. */
  lemma RevocationLasts(c: Config, s: State, events: seq<Event>, i: nat, t: Time)
    requires Backed(s) && Safe(s) && CanRun(c, s, events) && GuardedRun(c, s, events)
    requires i < |s.ledger| && s.ledger[i].revoked
    requires Run(c, s, events).now <= t <= s.ledger[i].expires
    ensures s.ledger[i].keyId in Published(Run(c, s, events).store, t)
  {
    RunSafeIff(c, s, events);
    LedgerGrows(c, s, events, i);
    assert s.ledger[i].keyId in Due(Run(c, s, events).ledger, t);
  }

  // ---- a Revoke of several ids ----

  function OneByOne(ids: seq<string>): seq<Event> {
    seq(|ids|, i requires 0 <= i < |ids| => Revoke([ids[i]]))
  }

  lemma {:induction false} FlagsOneByOne(c: Config, s: State, done: seq<string>)
    requires c.backend.Memory? ==> forall id :: id in done ==> id in s.store
    ensures CanRun(c, s, OneByOne(done))
    ensures Run(c, s, OneByOne(done)) == s.(store := Flagged(s.store, done), ledger := Marked(s.ledger, done))
    decreases |done|
  {
    if done == [] {
      assert Flagged(s.store, done) == s.store && Marked(s.ledger, done) == s.ledger;
    } else {
      var id, rest := done[0], done[1..];
      assert done == [id] + rest && id in done;
      assert OneByOne(done)[1..] == OneByOne(rest);
      if c.backend.Memory? {
        ProcessedOne(c.backend, s.store, id);
      }
      var s1 := Step(c, s, Revoke([id]));
      FlagsOneByOne(c, s1, rest);
      assert Flagged(s1.store, rest) == Flagged(s.store, done);
      assert Marked(s1.ledger, rest) == Marked(s.ledger, done);
    }
  }

  lemma {:induction false} KnownPrefixKnown(keys: set<string>, ids: seq<string>)
    ensures forall id :: id in Mem.KnownPrefix(keys, ids) ==> id in keys
  {
    if ids != [] && ids[0] in keys {
      KnownPrefixKnown(keys, ids[1..]);
    }
  }

  /** A Revoke amounts to one Revoke after the other of the ids it gets through. */
  lemma RevokeIsOneByOne(c: Config, s: State, ids: seq<string>)
    ensures var singles := OneByOne(Processed(c.backend, s.store, ids));
            CanRun(c, s, singles) && Run(c, s, singles) == Step(c, s, Revoke(ids))
  {
    KnownPrefixKnown(s.store.Keys, ids);
    FlagsOneByOne(c, s, Processed(c.backend, s.store, ids));
  }

  // ---- the failing cases ----

  lemma RunCons(c: Config, s: State, e: Event, rest: seq<Event>)
    ensures Run(c, s, [e] + rest) == Run(c, Step(c, s, e), rest)
    ensures CanRun(c, s, [e] + rest) <==> Enabled(c, s, e) && CanRun(c, Step(c, s, e), rest)
  {
    assert ([e] + rest)[1..] == rest;
  }

  lemma RunTwo(c: Config, s: State, e1: Event, e2: Event)
    ensures Run(c, s, [e1, e2]) == Step(c, Step(c, s, e1), e2)
    ensures CanRun(c, s, [e1, e2]) <==> Enabled(c, s, e1) && Enabled(c, Step(c, s, e1), e2)
  {
    RunCons(c, s, e1, [e2]);
    RunCons(c, Step(c, s, e1), e2, []);
    assert [e1] + [e2] == [e1, e2] && [e2] + [] == [e2];
  }

  lemma RunThree(c: Config, s: State, e1: Event, e2: Event, e3: Event)
    ensures Run(c, s, [e1, e2, e3]) == Step(c, Step(c, Step(c, s, e1), e2), e3)
    ensures CanRun(c, s, [e1, e2, e3])
            <==> && Enabled(c, s, e1) && Enabled(c, Step(c, s, e1), e2)
                 && Enabled(c, Step(c, Step(c, s, e1), e2), e3)
  {
    RunCons(c, s, e1, [e2, e3]);
    RunTwo(c, Step(c, s, e1), e2, e3);
    assert [e1] + [e2, e3] == [e1, e2, e3];
  }

  /** On the memory store, signing, revoking and signing again within one second loses the revocation. */
  lemma RepeatedSigningLosesRevocation()
    ensures var c := Config(Memory, 3600 * SECOND, []);
            var sign := Sign("user", 60 * SECOND, "", "", 0, 0, 0, 0);
            var id := KeyId.KeyId("user", 0);
            var s := Run(c, Initial(0), [sign, Revoke([id]), sign]);
            && CanRun(c, Initial(0), [sign, Revoke([id]), sign])
            && id in Due(s.ledger, 0) && id !in Published(s.store, 0)
  {
    var c := Config(Memory, 3600 * SECOND, []);
    var sign := Sign("user", 60 * SECOND, "", "", 0, 0, 0, 0);
    var id := KeyId.KeyId("user", 0);
    RecordedFields(c, sign);
    var s1 := Step(c, Initial(0), sign);
    assert s1.ledger[0] == Entry(id, 60 * SECOND, false);
    ProcessedOne(Memory, s1.store, id);
    var s2 := Step(c, s1, Revoke([id]));
    assert s2.ledger[0].revoked;
    var s3 := Step(c, s2, sign);
    assert s3.ledger[0] == s2.ledger[0] && !s3.store[id].revoked;
    RunThree(c, Initial(0), sign, Revoke([id]), sign);
  }

  /** On the SQL store, the later of two certificates of one second outlives the row that is revoked for both. */
  lemma RefusedRecordLosesRevocation()
    ensures var c := Config(Sql, 3600 * SECOND, []);
            var short := Sign("user", 60 * SECOND, "", "", 0, 0, 0, 0);
            var long := Sign("user", 120 * SECOND, "", "", 0, 0, 0, 0);
            var id := KeyId.KeyId("user", 0);
            var s := Run(c, Initial(0), [short, long, Revoke([id])]);
            && CanRun(c, Initial(0), [short, long, Revoke([id])])
            && id in Due(s.ledger, 61 * SECOND) && id !in Published(s.store, 61 * SECOND)
  {
    var c := Config(Sql, 3600 * SECOND, []);
    var short := Sign("user", 60 * SECOND, "", "", 0, 0, 0, 0);
    var long := Sign("user", 120 * SECOND, "", "", 0, 0, 0, 0);
    var id := KeyId.KeyId("user", 0);
    RecordedFields(c, short);
    RecordedFields(c, long);
    var s2 := Step(c, Step(c, Initial(0), short), long);
    assert s2.ledger[1] == Entry(id, 120 * SECOND, false);
    var s3 := Step(c, s2, Revoke([id]));
    assert s3.ledger[1].revoked && s3.store[id].expires == 60 * SECOND;
    RunThree(c, Initial(0), short, long, Revoke([id]));
  }

  /** On either store, the certificate of a request that names no expiry can never be listed, and is valid for ever. */
  lemma MissingExpiryLosesRevocation(b: Backend, t: Time)
    requires 0 <= t < FromUnix(TWO_63)
    ensures var c := Config(b, 3600 * SECOND, []);
            var sign := Sign("user", ZERO_TIME, "", "", 0, 0, 0, 0);
            var id := KeyId.KeyId("user", 0);
            var s := Run(c, Initial(0), [sign, Revoke([id])]);
            && CanRun(c, Initial(0), [sign, Revoke([id])]) && DistinctSignings([sign, Revoke([id])])
            && id in Due(s.ledger, t) && id !in Published(s.store, t)
  {
    var c := Config(b, 3600 * SECOND, []);
    var sign := Sign("user", ZERO_TIME, "", "", 0, 0, 0, 0);
    var id := KeyId.KeyId("user", 0);
    RecordedFields(c, sign);
    var s1 := Step(c, Initial(0), sign);
    assert s1.ledger[0].keyId == id && s1.ledger[0].expires >= FromUnix(TWO_63);
    ProcessedOne(b, s1.store, id);
    var s2 := Step(c, s1, Revoke([id]));
    assert s2.ledger[0].revoked && s2.store[id].expires < 0;
    RunTwo(c, Initial(0), sign, Revoke([id]));
  }
}
