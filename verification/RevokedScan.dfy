/**
 * GetRevoked of the memory store under interference. It lists the records while holding the lock, then tests their
 * flags after releasing it, while other requests revoke and store records and the clock moves on. Every step below
 * is atomic; a Revoke of several ids is several Flag steps, since the flag tests can fall between them.
 */
module RevokedScan {
  import opened Common

  /** A heap address: identifies a record object. */
  type Ref = nat

  datatype Rec = Rec(keyId: string, expires: Time, revoked: bool)

  datatype Phase =
    | Idle
    | Listing(rest: set<Ref>, picked: seq<Ref>)              // holds the lock
    | Testing(all: seq<Ref>, next: nat, out: seq<Ref>)       // lock released
    | Returned(result: seq<Ref>)

  /**
   * What the guarantees refer to: the store and the flags when the lock was taken, the clock at both ends of the
   * listing, the records listed, and the flag that each test of them read.
   */
  datatype Marks = Marks(stored: set<Ref>, flagged: set<Ref>, start: Time, end: Time, listed: seq<Ref>, read: seq<bool>)

  datatype State = State(heap: map<Ref, Rec>, certs: map<string, Ref>, now: Time, phase: Phase, marks: Marks)

  datatype Event =
    | Tick(to: Time)
    | Flag(id: string)                   // some Revoke, at one of its ids
    | Store(ref: Ref, rec: Rec)          // SetRecord, of a new object or of one already on the heap
    | Begin
    | Examine(ref: Ref)
    | Unlock
    | Test
    | Return

  predicate Enabled(s: State, e: Event) {
    match e
    case Tick(to) => s.now <= to
    case Flag(id) => !s.phase.Listing? && id in s.certs && s.certs[id] in s.heap
    case Store(ref, rec) => !s.phase.Listing? && (ref in s.heap ==> s.heap[ref] == rec)
    case Begin => s.phase.Idle?
    case Examine(ref) => s.phase.Listing? && ref in s.phase.rest && ref in s.heap
    case Unlock => s.phase.Listing? && s.phase.rest == {}
    case Test => s.phase.Testing? && s.phase.next < |s.phase.all| && s.phase.all[s.phase.next] in s.heap
    case Return => s.phase.Testing? && s.phase.next == |s.phase.all|
  }

  function Step(s: State, e: Event): State
    requires Enabled(s, e)
  {
    match e
    case Tick(to) => s.(now := to)
    case Flag(id) => s.(heap := s.heap[s.certs[id] := s.heap[s.certs[id]].(revoked := true)])
    case Store(ref, rec) => s.(heap := s.heap[ref := rec], certs := s.certs[rec.keyId := ref])
    case Begin =>
      var flagged := set r | r in s.certs.Values && r in s.heap && s.heap[r].revoked;
      s.(phase := Listing(s.certs.Values, []), marks := Marks(s.certs.Values, flagged, s.now, s.now, [], []))
    case Examine(ref) =>
      var picked := if s.heap[ref].expires < s.now then s.phase.picked else s.phase.picked + [ref];
      s.(phase := Listing(s.phase.rest - {ref}, picked))
    case Unlock =>
      s.(phase := Testing(s.phase.picked, 0, []), marks := s.marks.(end := s.now, listed := s.phase.picked))
    case Test =>
      var ref := s.phase.all[s.phase.next];
      s.(phase := s.phase.(next := s.phase.next + 1,
                           out := if s.heap[ref].revoked then s.phase.out + [ref] else s.phase.out),
         marks := s.marks.(read := s.marks.read + [s.heap[ref].revoked]))
    case Return => s.(phase := Returned(s.phase.out))
  }

  ghost predicate CanRun(s: State, events: seq<Event>)
    decreases |events|
  {
    events == [] || (Enabled(s, events[0]) && CanRun(Step(s, events[0]), events[1..]))
  }

  ghost function Run(s: State, events: seq<Event>): State
    requires CanRun(s, events)
    decreases |events|
  {
    if events == [] then s else Run(Step(s, events[0]), events[1..])
  }

  /** Every reference in the store is a record filed under its key id. */
  predicate WellFormed(s: State) {
    forall id :: id in s.certs ==> s.certs[id] in s.heap && s.heap[s.certs[id]].keyId == id
  }

  /** A record keeps its identity, and its flag only ever goes up. */
  predicate Grows(h: map<Ref, Rec>, h': map<Ref, Rec>) {
    forall r :: r in h ==>
      r in h' && h'[r].keyId == h[r].keyId && h'[r].expires == h[r].expires && (h[r].revoked ==> h'[r].revoked)
  }

  ghost predicate MarksHold(s: State) {
    && s.marks.stored <= s.heap.Keys && s.marks.flagged <= s.marks.stored
    && s.marks.start <= s.marks.end <= s.now
    && forall r :: r in s.marks.flagged ==> s.heap[r].revoked
  }

  /** What the listing found. */
  ghost predicate ListedWell(s: State)
    requires s.marks.stored <= s.heap.Keys
  {
    && NoDuplicates(s.marks.listed)
    && (forall r :: r in s.marks.listed ==> r in s.marks.stored && s.marks.start <= s.heap[r].expires)
    && (forall r :: r in s.marks.stored && s.marks.end <= s.heap[r].expires ==> r in s.marks.listed)
  }

  /** The k-th test read a set flag of r. */
  predicate Hit(marks: Marks, k: int, r: Ref) {
    0 <= k < |marks.read| && k < |marks.listed| && marks.listed[k] == r && marks.read[k]
  }

  /** What the tests so far read, and what they put out: exactly the records whose flag was set when tested. */
  ghost predicate TestedWell(s: State, out: seq<Ref>)
    requires s.marks.stored <= s.heap.Keys
  {
    && |s.marks.read| <= |s.marks.listed|
    && NoDuplicates(out)
    && (forall r :: r in out <==> exists k :: Hit(s.marks, k, r))
    && (forall k, r :: Hit(s.marks, k, r) ==> r in s.heap && s.heap[r].revoked)
    && (forall k :: 0 <= k < |s.marks.read| && s.marks.listed[k] in s.marks.flagged ==> s.marks.read[k])
  }

  ghost predicate Inv(s: State) {
    && WellFormed(s)
    && (!s.phase.Idle? ==> MarksHold(s))
    && match s.phase
       case Idle => true
       case Listing(rest, picked) =>
         && s.marks.listed == [] && s.marks.read == []
         && rest <= s.marks.stored && NoDuplicates(picked)
         && (forall r :: r in picked ==> r in s.marks.stored - rest && s.marks.start <= s.heap[r].expires)
         && (forall r :: r in s.marks.stored - rest && s.now <= s.heap[r].expires ==> r in picked)
       case Testing(all, next, out) =>
         && all == s.marks.listed && next == |s.marks.read|
         && ListedWell(s) && TestedWell(s, out)
       case Returned(result) => |s.marks.read| == |s.marks.listed| && ListedWell(s) && TestedWell(s, result)
  }

  /** What GetRevoked promises of its result. */
  ghost predicate Exact(s: State, result: seq<Ref>)
    requires s.marks.stored <= s.heap.Keys && s.marks.flagged <= s.marks.stored
  {
    && NoDuplicates(result)
    // every listed record was tested once, and the result holds exactly those whose flag was set when tested
    && |s.marks.read| == |s.marks.listed| && NoDuplicates(s.marks.listed)
    && (forall r :: r in result <==> exists k :: Hit(s.marks, k, r))
    // nothing that was not stored or had expired at the start of the scan; what was flagged when tested still is
    && (forall r :: r in result ==> r in s.marks.stored && s.marks.start <= s.heap[r].expires && s.heap[r].revoked)
    // every record stored and revoked before the scan that had not expired by its end
    && (forall r :: r in s.marks.flagged && s.marks.end <= s.heap[r].expires ==> r in result)
  }

  lemma StepGrows(s: State, e: Event)
    requires WellFormed(s) && Enabled(s, e)
    ensures WellFormed(Step(s, e)) && Grows(s.heap, Step(s, e).heap) && s.now <= Step(s, e).now
  {
  }

  lemma TestKeepsTested(s: State)
    requires Inv(s) && Enabled(s, Test)
    ensures TestedWell(Step(s, Test), Step(s, Test).phase.out)
  {
    var s' := Step(s, Test);
    var n, r := s.phase.next, s.phase.all[s.phase.next];
    assert forall k, x :: Hit(s'.marks, k, x) <==> Hit(s.marks, k, x) || (k == n && x == r && s.heap[r].revoked);
    assert r !in s.phase.out by {
      assert forall k :: 0 <= k < n ==> s.marks.listed[k] != r;
    }
    assert s.heap[r].revoked ==> Hit(s'.marks, n, r);
  }

  lemma StepKeepsInv(s: State, e: Event)
    requires Inv(s) && Enabled(s, e)
    ensures Inv(Step(s, e))
  {
    StepGrows(s, e);
    if e.Test? {
      TestKeepsTested(s);
    }
  }

  lemma {:induction false} RunKeepsInv(s: State, events: seq<Event>)
    requires Inv(s) && CanRun(s, events)
    ensures Inv(Run(s, events)) && Grows(s.heap, Run(s, events).heap)
    decreases |events|
  {
    if events != [] {
      StepGrows(s, events[0]);
      StepKeepsInv(s, events[0]);
      RunKeepsInv(Step(s, events[0]), events[1..]);
    }
  }

  lemma InvIsExact(s: State)
    requires Inv(s) && s.phase.Returned?
    ensures Exact(s, s.phase.result)
  {
    forall r | r in s.marks.flagged && s.marks.end <= s.heap[r].expires ensures r in s.phase.result {
      var k :| 0 <= k < |s.marks.listed| && s.marks.listed[k] == r;
      assert Hit(s.marks, k, r);
    }
  }

  /** In every interleaving, a scan that returns gives an exact result. */
  lemma ScanIsExact(s: State, events: seq<Event>)
    requires s.phase.Idle? && WellFormed(s) && CanRun(s, events)
    requires Run(s, events).phase.Returned?
    ensures MarksHold(Run(s, events)) && Exact(Run(s, events), Run(s, events).phase.result)
  {
    RunKeepsInv(s, events);
    InvIsExact(Run(s, events));
  }
}
