/**
 * The revocation list served from the memory store while the server goes on: one GetRevoked scans the record objects
 * while certificates are signed and revoked. Joins the lifecycle and its ledger with the scan and its heap.
 */
module ServedList {
  import opened Common
  import opened Records
  import Life = Lifecycle
  import Scan = RevokedScan

  datatype State = State(life: Life.State, scan: Scan.State)

  /** A Revoke of several ids is one Revoke event for each, see Lifecycle.RevokeIsOneByOne. */
  datatype Event =
    | Sign(sign: Life.Event, ref: Scan.Ref)      // stores a record in a new object
    | Revoke(id: string)
    | Tick(to: Time)
    | Advance(step: Scan.Event)                  // a step of the scan itself

  function Initial(now: Time): State {
    State(Life.Initial(now), Scan.State(map[], map[], now, Scan.Idle, Scan.Marks({}, {}, now, now, [], [])))
  }

  /** What the scan sees of a record. */
  function Seen(rec: Record): Scan.Rec {
    Scan.Rec(rec.keyId, rec.expires, rec.revoked)
  }

  predicate Enabled(c: Life.Config, s: State, e: Event) {
    match e
    case Sign(sign, ref) =>
      && sign.Sign? && Life.Enabled(c, s.life, sign) && s.scan.now <= sign.at
      && !s.scan.phase.Listing? && ref !in s.scan.heap
    case Revoke(id) => Scan.Enabled(s.scan, Scan.Flag(id))
    case Tick(to) => Life.Enabled(c, s.life, Life.Tick(to)) && Scan.Enabled(s.scan, Scan.Tick(to))
    case Advance(step) => !step.Tick? && !step.Flag? && !step.Store? && Scan.Enabled(s.scan, step)
  }

  function Step(c: Life.Config, s: State, e: Event): State
    requires Enabled(c, s, e)
  {
    match e
    case Sign(sign, ref) =>
      var ticked := Scan.Step(s.scan, Scan.Tick(sign.at));
      State(Life.Step(c, s.life, sign), Scan.Step(ticked, Scan.Store(ref, Seen(Life.Recorded(c, sign)))))
    case Revoke(id) => State(Life.Step(c, s.life, Life.Revoke([id])), Scan.Step(s.scan, Scan.Flag(id)))
    case Tick(to) => State(Life.Step(c, s.life, Life.Tick(to)), Scan.Step(s.scan, Scan.Tick(to)))
    case Advance(step) => s.(scan := Scan.Step(s.scan, step))
  }

  ghost predicate CanRun(c: Life.Config, s: State, events: seq<Event>)
    decreases |events|
  {
    events == [] || (Enabled(c, s, events[0]) && CanRun(c, Step(c, s, events[0]), events[1..]))
  }

  ghost function Run(c: Life.Config, s: State, events: seq<Event>): State
    requires CanRun(c, s, events)
    decreases |events|
  {
    if events == [] then s else Run(c, Step(c, s, events[0]), events[1..])
  }

  /** The run of the server without the scan. */
  function Served(events: seq<Event>): seq<Life.Event> {
    if events == [] then []
    else
      match events[0]
      case Sign(sign, _) => [sign] + Served(events[1..])
      case Revoke(id) => [Life.Revoke([id])] + Served(events[1..])
      case Tick(to) => [Life.Tick(to)] + Served(events[1..])
      case Advance(_) => Served(events[1..])
  }

  /** The objects filed in the store are the records of the lifecycle, and the clock is the same. */
  ghost predicate Coupled(s: State) {
    && s.scan.now == s.life.now && s.scan.certs.Keys == s.life.store.Keys
    && forall id :: id in s.scan.certs ==>
         s.scan.certs[id] in s.scan.heap && s.scan.heap[s.scan.certs[id]] == Seen(s.life.store[id])
  }

  /** The entry explains the object: same key id, valid at least as long, revoked if the object is flagged. */
  predicate Covers(e: Life.Entry, rec: Scan.Rec) {
    e.keyId == rec.keyId && rec.expires <= e.expires && (rec.revoked ==> e.revoked)
  }

  /** Every object ever stored, also one that another has displaced since, belongs to an issued certificate. */
  ghost predicate Covered(s: State) {
    forall r :: r in s.scan.heap ==> exists i :: 0 <= i < |s.life.ledger| && Covers(s.life.ledger[i], s.scan.heap[r])
  }

  ghost predicate Inv(s: State) {
    Life.Backed(s.life) && Scan.Inv(s.scan) && Coupled(s) && Covered(s)
  }

  lemma StepKeepsScan(c: Life.Config, s: State, e: Event)
    requires Scan.Inv(s.scan) && Enabled(c, s, e)
    ensures Scan.Inv(Step(c, s, e).scan) && Scan.Grows(s.scan.heap, Step(c, s, e).scan.heap)
  {
    match e
    case Sign(sign, ref) =>
      var ticked, store := Scan.Step(s.scan, Scan.Tick(sign.at)), Scan.Store(ref, Seen(Life.Recorded(c, sign)));
      Scan.StepKeepsInv(s.scan, Scan.Tick(sign.at));
      Scan.StepKeepsInv(ticked, store);
      Scan.StepGrows(ticked, store);
    case Revoke(id) =>
      Scan.StepKeepsInv(s.scan, Scan.Flag(id));
      Scan.StepGrows(s.scan, Scan.Flag(id));
    case Tick(to) =>
      Scan.StepKeepsInv(s.scan, Scan.Tick(to));
    case Advance(step) =>
      Scan.StepKeepsInv(s.scan, step);
      Scan.StepGrows(s.scan, step);
  }

  lemma StepKeepsBacked(c: Life.Config, s: State, e: Event)
    requires Life.Backed(s.life) && Enabled(c, s, e)
    ensures Life.Backed(Step(c, s, e).life)
  {
    match e
    case Sign(sign, _) => Life.StepKeepsBacked(c, s.life, sign);
    case Revoke(id) => Life.StepKeepsBacked(c, s.life, Life.Revoke([id]));
    case Tick(to) => Life.StepKeepsBacked(c, s.life, Life.Tick(to));
    case Advance(_) =>
  }

  lemma StepKeepsCoupled(c: Life.Config, s: State, e: Event)
    requires c.backend.Memory? && Coupled(s) && Scan.WellFormed(s.scan) && Enabled(c, s, e)
    ensures Coupled(Step(c, s, e))
  {
    if e.Revoke? {
      Life.ProcessedOne(c.backend, s.life.store, e.id);
    }
  }

  lemma SignKeepsCovered(c: Life.Config, s: State, e: Event)
    requires Covered(s) && Enabled(c, s, e) && e.Sign?
    ensures Covered(Step(c, s, e))
  {
    Life.RecordedFields(c, e.sign);
    Life.BelowTwo63(Life.Recorded(c, e.sign).expires);
    var s' := Step(c, s, e);
    forall r | r in s'.scan.heap
      ensures exists i :: 0 <= i < |s'.life.ledger| && Covers(s'.life.ledger[i], s'.scan.heap[r])
    {
      if r == e.ref {
        assert Covers(s'.life.ledger[|s.life.ledger|], s'.scan.heap[r]);
      } else {
        var i :| 0 <= i < |s.life.ledger| && Covers(s.life.ledger[i], s.scan.heap[r]);
        assert Covers(s'.life.ledger[i], s'.scan.heap[r]);
      }
    }
  }

  lemma RevokeKeepsCovered(c: Life.Config, s: State, e: Event)
    requires c.backend.Memory? && Covered(s) && Coupled(s) && Scan.WellFormed(s.scan) && Enabled(c, s, e) && e.Revoke?
    ensures Covered(Step(c, s, e))
  {
    Life.ProcessedOne(c.backend, s.life.store, e.id);
    var s' := Step(c, s, e);
    forall r | r in s'.scan.heap
      ensures exists i :: 0 <= i < |s'.life.ledger| && Covers(s'.life.ledger[i], s'.scan.heap[r])
    {
      var i :| 0 <= i < |s.life.ledger| && Covers(s.life.ledger[i], s.scan.heap[r]);
      assert Covers(s'.life.ledger[i], s'.scan.heap[r]);
    }
  }

  lemma StepKeepsCovered(c: Life.Config, s: State, e: Event)
    requires c.backend.Memory? && Covered(s) && Coupled(s) && Scan.WellFormed(s.scan) && Enabled(c, s, e)
    ensures Covered(Step(c, s, e))
  {
    if e.Sign? {
      SignKeepsCovered(c, s, e);
    } else if e.Revoke? {
      RevokeKeepsCovered(c, s, e);
    }
  }

  lemma {:induction false} RunKeepsInv(c: Life.Config, s: State, events: seq<Event>)
    requires c.backend.Memory? && Inv(s) && CanRun(c, s, events)
    ensures Inv(Run(c, s, events))
    decreases |events|
  {
    if events != [] {
      StepKeepsScan(c, s, events[0]);
      StepKeepsBacked(c, s, events[0]);
      StepKeepsCoupled(c, s, events[0]);
      StepKeepsCovered(c, s, events[0]);
      RunKeepsInv(c, Step(c, s, events[0]), events[1..]);
    }
  }

  /** Once the scan has begun, what it refers to stays, and objects keep their identity. */
  lemma {:induction false} RunKeepsMarks(c: Life.Config, s: State, events: seq<Event>)
    requires Scan.Inv(s.scan) && CanRun(c, s, events) && !s.scan.phase.Idle?
    ensures var marks := Run(c, s, events).scan.marks;
            marks.stored == s.scan.marks.stored && marks.flagged == s.scan.marks.flagged
            && marks.start == s.scan.marks.start
    ensures Scan.Grows(s.scan.heap, Run(c, s, events).scan.heap)
    decreases |events|
  {
    if events != [] {
      StepKeepsScan(c, s, events[0]);
      RunKeepsMarks(c, Step(c, s, events[0]), events[1..]);
    }
  }

  /** The scan does not touch the lifecycle. */
  lemma {:induction false} RunIsServed(c: Life.Config, s: State, events: seq<Event>)
    requires c.backend.Memory? && CanRun(c, s, events)
    ensures Life.CanRun(c, s.life, Served(events)) && Run(c, s, events).life == Life.Run(c, s.life, Served(events))
    decreases |events|
  {
    if events != [] {
      RunIsServed(c, Step(c, s, events[0]), events[1..]);
      var rest := Served(events[1..]);
      match events[0]
      case Sign(sign, _) => Life.RunCons(c, s.life, sign, rest);
      case Revoke(id) => Life.RunCons(c, s.life, Life.Revoke([id]), rest);
      case Tick(to) => Life.RunCons(c, s.life, Life.Tick(to), rest);
      case Advance(_) =>
    }
  }

  /** The key ids of the records that the scan returned. */
  ghost function ListedIds(s: State): set<string>
    requires s.scan.phase.Returned? && forall r :: r in s.scan.phase.result ==> r in s.scan.heap
  {
    set r | r in s.scan.phase.result :: s.scan.heap[r].keyId
  }

  /** Whatever the scan returns was revoked by then, and was not past its ValidBefore when the scan began. */
  lemma ListedIsDue(s: State)
    requires Inv(s) && s.scan.phase.Returned?
    ensures forall r :: r in s.scan.phase.result ==> r in s.scan.heap
    ensures ListedIds(s) <= Life.Due(s.life.ledger, s.scan.marks.start)
  {
    Scan.InvIsExact(s.scan);
    forall r | r in s.scan.phase.result ensures s.scan.heap[r].keyId in Life.Due(s.life.ledger, s.scan.marks.start) {
      var i :| 0 <= i < |s.life.ledger| && Covers(s.life.ledger[i], s.scan.heap[r]);
    }
  }

  /** From a safe state, the scan begins with the object of each entry that is due flagged. */
  lemma DueIsFlagged(s: State, i: nat)
    requires Coupled(s) && Life.Backed(s.life) && Life.Safe(s.life) && s.scan.phase.Idle?
    requires i < |s.life.ledger| && s.life.ledger[i].revoked && s.life.now <= s.life.ledger[i].expires
    ensures var id := s.life.ledger[i].keyId;
            && id in s.scan.certs && s.scan.certs[id] in s.scan.heap
            && s.scan.certs[id] in Scan.Step(s.scan, Scan.Begin).marks.flagged
            && s.scan.heap[s.scan.certs[id]].keyId == id
            && s.life.ledger[i].expires <= s.scan.heap[s.scan.certs[id]].expires
  {
    assert s.life.ledger[i] in s.life.ledger;
  }

  /** From a safe state, the scan returns what was due when it began, unless that expires before the listing ends. */
  lemma DueIsListed(s: State, s': State, id: string)
    requires Coupled(s) && Life.Backed(s.life) && Life.Safe(s.life) && s.scan.phase.Idle?
    requires Scan.Inv(s'.scan) && s'.scan.phase.Returned? && Scan.Grows(s.scan.heap, s'.scan.heap)
    requires s'.scan.marks.flagged == Scan.Step(s.scan, Scan.Begin).marks.flagged
    requires s'.scan.marks.start == s.life.now
    requires forall r :: r in s'.scan.phase.result ==> r in s'.scan.heap
    requires id in Life.Due(s.life.ledger, s'.scan.marks.end)
    ensures id in ListedIds(s')
  {
    Scan.InvIsExact(s'.scan);
    var i :| 0 <= i < |s.life.ledger| && s.life.ledger[i].revoked && s.life.ledger[i].keyId == id
             && s'.scan.marks.end <= s.life.ledger[i].expires;
    DueIsFlagged(s, i);
    assert s.scan.certs[id] in s'.scan.phase.result;
  }

  /**
   * In every interleaving of the server with a scan, the list served names only certificates that have been revoked by
   * the time it is returned and were not past their ValidBefore when the scan began. If the run before the scan was
   * guarded, it names every certificate that had been revoked when the scan began and was not past its ValidBefore
   * when the listing ended, whatever is signed and revoked during the scan.
   */
  lemma ServedListIsExact(c: Life.Config, now: Time, before: seq<Event>, during: seq<Event>)
    requires c.backend.Memory? && CanRun(c, Initial(now), before)
    requires Run(c, Initial(now), before).scan.phase.Idle?
    requires CanRun(c, Step(c, Run(c, Initial(now), before), Advance(Scan.Begin)), during)
    requires Run(c, Step(c, Run(c, Initial(now), before), Advance(Scan.Begin)), during).scan.phase.Returned?
    ensures var s := Run(c, Initial(now), before);
            var s' := Run(c, Step(c, s, Advance(Scan.Begin)), during);
            && s.life.now <= s'.scan.marks.end <= s'.life.now
            && (forall r :: r in s'.scan.phase.result ==> r in s'.scan.heap)
            && ListedIds(s') <= Life.Due(s'.life.ledger, s.life.now)
            && (Life.GuardedRun(c, Life.Initial(now), Served(before)) ==>
                  Life.Due(s.life.ledger, s'.scan.marks.end) <= ListedIds(s'))
  {
    var s := Run(c, Initial(now), before);
    var s1 := Step(c, s, Advance(Scan.Begin));
    var s' := Run(c, s1, during);
    RunKeepsInv(c, Initial(now), before);
    StepKeepsScan(c, s, Advance(Scan.Begin));
    RunKeepsInv(c, s1, during);
    RunKeepsMarks(c, s1, during);
    ListedIsDue(s');
    RunIsServed(c, Initial(now), before);
    if Life.GuardedRun(c, Life.Initial(now), Served(before)) {
      Life.RunSafeIff(c, Life.Initial(now), Served(before));
      forall id | id in Life.Due(s.life.ledger, s'.scan.marks.end) ensures id in ListedIds(s') {
        DueIsListed(s, s', id);
      }
    }
  }
}
