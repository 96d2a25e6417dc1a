/**
 * The client's token handoff: browser requests to the local server, the goroutine that reads a pasted token, and
 * the main routine, in every interleaving. Assignments of the shared string are atomic; both channels hold one value.
 */
module TokenHandoff {
  import opened Common

  const OK: string := "ok"
  const ERROR: string := "error"

  datatype Paste = Reading | Assigned | Cancelled

  datatype MainAt =
    | Selecting
    | Decoding
    | Signing
    | Dialing
    | Installing
    | Responding(reply: string)
    | Finished            // has responded, or died before it could

  /** A browser request: just arrived, its token handed over, answered by the main routine, or turned away. */
  datatype Request = Arrived(token: string) | Waiting | Answered(reply: string) | TurnedAway

  /** Where a token came from. */
  datatype Source = Nobody | Browser(i: nat) | Pasted

  datatype State = State(
    listening: bool,                 // whether the local server started; otherwise its channels are nil
    tokenChan: Option<nat>,          // the request whose token is in the channel
    responseChan: Option<string>,
    encoded: string,                 // shared between the paste goroutine and main
    source: Source,                  // whose token `encoded` is
    paste: Paste,
    main: MainAt,
    requests: map<nat, Request>,
    passed: map<nat, string>,        // the tokens handed over, by request
    pasted: Option<string>,          // the pasted token
    took: Option<nat>,               // the request whose token main took from the channel
    decoded: Option<string>,         // what main decoded
    decodedFrom: Source)

  function Initial(listening: bool): State {
    State(listening, None, None, "", Nobody, Reading, Selecting, map[], map[], None, None, None, Nobody)
  }

  datatype Event =
    | Arrive(i: nat, token: string)
    | TurnAway(i: nat)               // no token, no service
    | HandOver(i: nat)
    | Answer(i: nat)
    | PasteDone(text: string)        // encodedToken = buffer.String()
    | PasteCancel                    // cancel()
    | SelectToken
    | SelectDone
    | Decode(ok: bool)
    | Sign(ok: bool)
    | Dial(ok: bool)
    | Install(ok: bool)
    | Respond

  predicate Enabled(s: State, e: Event) {
    match e
    case Arrive(i, _) => s.listening && i !in s.requests
    case TurnAway(i) => i in s.requests && s.requests[i] == Arrived("")
    case HandOver(i) => i in s.requests && s.requests[i].Arrived? && s.requests[i].token != "" && s.tokenChan.None?
    case Answer(i) => i in s.requests && s.requests[i].Waiting? && s.responseChan.Some?
    case PasteDone(_) => s.paste.Reading?
    case PasteCancel => s.paste.Assigned?
    case SelectToken => s.main.Selecting? && s.tokenChan.Some? && s.tokenChan.value in s.passed
    case SelectDone => s.main.Selecting? && s.paste.Cancelled?
    case Decode(_) => s.main.Decoding?
    case Sign(_) => s.main.Signing?
    case Dial(_) => s.main.Dialing?
    case Install(_) => s.main.Installing?
    case Respond => s.main.Responding? && (s.listening ==> s.responseChan.None?)   // blocks while the channel is full
  }

  function Step(s: State, e: Event): State
    requires Enabled(s, e)
  {
    match e
    case Arrive(i, token) => s.(requests := s.requests[i := Arrived(token)])
    case TurnAway(i) => s.(requests := s.requests[i := TurnedAway])
    case HandOver(i) =>
      s.(requests := s.requests[i := Waiting], passed := s.passed[i := s.requests[i].token], tokenChan := Some(i))
    case Answer(i) =>
      s.(requests := s.requests[i := Answered(s.responseChan.value)], responseChan := None)
    case PasteDone(text) =>
      s.(encoded := text, source := Pasted, pasted := Some(text), paste := Assigned)
    case PasteCancel => s.(paste := Cancelled)
    case SelectToken =>
      s.(encoded := s.passed[s.tokenChan.value], source := Browser(s.tokenChan.value),
         took := s.tokenChan, tokenChan := None, main := Decoding)
    case SelectDone => s.(main := Decoding)
    case Decode(ok) =>
      s.(decoded := Some(s.encoded), decodedFrom := s.source, main := if ok then Signing else Finished)
    case Sign(ok) => s.(main := if ok then Dialing else Responding(ERROR))
    case Dial(ok) => s.(main := if ok then Installing else Responding(ERROR))
    case Install(ok) => s.(main := Responding(if ok then OK else ERROR))
    case Respond => s.(responseChan := if s.listening then Some(s.main.reply) else None, main := Finished)
  }

  ghost predicate CanRun(s: State, events: seq<Event>)
    decreases |events|
  {
    events == [] || (Enabled(s, events[0]) && CanRun(Step(s, events[0]), events[1..]))
  }

  ghost function Run(s: State, events: seq<Event>): State
    requires CanRun(s, events)
    decreases |events|
  {
    if events == [] then s else Run(Step(s, events[0]), events[1..])
  }

  ghost predicate IsAnswered(s: State, i: nat) {
    i in s.requests && s.requests[i].Answered?
  }

  /** The token is the whole one that its source handed in. */
  ghost predicate WholeFrom(s: State, source: Source, token: string) {
    match source
    case Nobody => false
    case Browser(i) => i in s.passed && s.passed[i] == token
    case Pasted => s.pasted == Some(token)
  }

  /** What the shared string holds, and what was decoded. */
  ghost predicate TokensWhole(s: State) {
    && (s.tokenChan.Some? ==> s.tokenChan.value in s.passed)
    && (s.pasted.Some? <==> !s.paste.Reading?)
    && (!s.paste.Reading? || !s.main.Selecting? ==> WholeFrom(s, s.source, s.encoded))
    && (s.decoded.Some? ==> WholeFrom(s, s.decodedFrom, s.decoded.value))
  }

  /** What has been answered: nothing before main is finished, then one reply in the channel or with one request. */
  ghost predicate RepliesSingle(s: State) {
    && (!s.main.Finished? ==> s.responseChan.None? && forall i :: !IsAnswered(s, i))
    && (s.responseChan.Some? ==> forall i :: !IsAnswered(s, i))
    && (forall i, j :: IsAnswered(s, i) && IsAnswered(s, j) ==> i == j)
    && (!s.listening ==> s.requests == map[])
  }

  /** A reply is given only after the decoding, at the end. */
  ghost predicate RepliesLate(s: State) {
    && (s.responseChan.Some? ==> s.main.Finished? && s.decoded.Some?)
    && (forall i :: IsAnswered(s, i) ==> s.main.Finished? && s.decoded.Some?)
    && (s.main.Signing? || s.main.Dialing? || s.main.Installing? || s.main.Responding? ==> s.decoded.Some?)
  }

  function AsSet(r: Option<nat>): set<nat> {
    if r.Some? then {r.value} else {}
  }

  /** Every token handed over is in the channel or was taken by main, which takes at most one. */
  ghost predicate TokensConserved(s: State) {
    && (forall i :: i in s.passed <==> i in s.requests && (s.requests[i].Waiting? || s.requests[i].Answered?))
    && s.passed.Keys == AsSet(s.tokenChan) + AsSet(s.took)
    && AsSet(s.tokenChan) !! AsSet(s.took)
    && (s.main.Selecting? ==> s.took.None?)
  }

  ghost predicate Inv(s: State) {
    TokensWhole(s) && RepliesSingle(s) && RepliesLate(s) && TokensConserved(s)
  }

  /** A step of a browser request. */
  predicate FromBrowser(e: Event) {
    e.Arrive? || e.TurnAway? || e.HandOver? || e.Answer?
  }

  /** A step of main after the decoding. */
  predicate AfterDecoding(e: Event) {
    e.Sign? || e.Dial? || e.Install? || e.Respond?
  }

  lemma BrowserKeepsTokens(s: State, e: Event)
    requires TokensWhole(s) && TokensConserved(s) && Enabled(s, e) && FromBrowser(e)
    ensures TokensWhole(Step(s, e))
  {
  }

  lemma ChoiceKeepsTokens(s: State, e: Event)
    requires TokensWhole(s) && Enabled(s, e) && !FromBrowser(e) && !AfterDecoding(e)
    ensures TokensWhole(Step(s, e))
  {
  }

  lemma StepKeepsTokens(s: State, e: Event)
    requires TokensWhole(s) && TokensConserved(s) && Enabled(s, e)
    ensures TokensWhole(Step(s, e))
  {
    if FromBrowser(e) {
      BrowserKeepsTokens(s, e);
    } else if !AfterDecoding(e) {
      ChoiceKeepsTokens(s, e);
    }
  }

  lemma StepKeepsSingle(s: State, e: Event)
    requires RepliesSingle(s) && Enabled(s, e)
    ensures RepliesSingle(Step(s, e))
  {
    var s' := Step(s, e);
    assert forall i :: IsAnswered(s', i) ==> IsAnswered(s, i) || (e.Answer? && i == e.i);
  }

  lemma StepKeepsLate(s: State, e: Event)
    requires RepliesLate(s) && Enabled(s, e)
    ensures RepliesLate(Step(s, e))
  {
    var s' := Step(s, e);
    assert forall i :: IsAnswered(s', i) ==> IsAnswered(s, i) || e == Answer(i);
  }

  lemma BrowserConservesTokens(s: State, e: Event)
    requires TokensConserved(s) && Enabled(s, e) && FromBrowser(e)
    ensures TokensConserved(Step(s, e))
  {
  }

  lemma StepConservesTokens(s: State, e: Event)
    requires TokensConserved(s) && Enabled(s, e)
    ensures TokensConserved(Step(s, e))
  {
    if FromBrowser(e) {
      BrowserConservesTokens(s, e);
    }
  }

  lemma {:induction false} RunKeepsInv(s: State, events: seq<Event>)
    requires Inv(s) && CanRun(s, events)
    ensures Inv(Run(s, events))
    decreases |events|
  {
    if events != [] {
      StepKeepsTokens(s, events[0]);
      StepKeepsSingle(s, events[0]);
      StepKeepsLate(s, events[0]);
      StepConservesTokens(s, events[0]);
      RunKeepsInv(Step(s, events[0]), events[1..]);
    }
  }

  // ---- what the events of a run say ----

  /** The token comes from a browser request that brought one, or from a paste. */
  predicate Submitted(events: seq<Event>, source: Source, token: string) {
    match source
    case Nobody => false
    case Browser(i) => token != "" && Arrive(i, token) in events
    case Pasted => PasteDone(token) in events
  }

  /** Everything handed in was submitted so, and only requests without a token were turned away. */
  ghost predicate AllSubmitted(events: seq<Event>, s: State) {
    && (forall i :: i in s.requests && s.requests[i].Arrived? ==> Arrive(i, s.requests[i].token) in events)
    && (forall i :: i in s.passed ==> Submitted(events, Browser(i), s.passed[i]))
    && (forall i :: i in s.requests && s.requests[i].TurnedAway? ==> Arrive(i, "") in events)
    && (s.pasted.Some? ==> Submitted(events, Pasted, s.pasted.value))
  }

  /** Exactly the requests that handed over a token, and those turned away, are held as such. */
  ghost predicate AllHeld(events: seq<Event>, s: State) {
    && (forall i: nat :: i in s.passed <==> HandOver(i) in events)
    && (forall i: nat :: i in s.requests && s.requests[i].TurnedAway? <==> TurnAway(i) in events)
  }

  lemma StepHeld(events: seq<Event>, s: State, e: Event)
    requires AllHeld(events, s) && Enabled(s, e)
    ensures AllHeld(events + [e], Step(s, e))
  {
    assert forall x :: x in events + [e] <==> x in events || x == e;
  }

  lemma StepSubmitted(events: seq<Event>, s: State, e: Event)
    requires AllSubmitted(events, s) && Enabled(s, e)
    ensures AllSubmitted(events + [e], Step(s, e))
  {
    var longer, s' := events + [e], Step(s, e);
    assert forall x :: x in longer <==> x in events || x == e;
    assert forall i :: i in s'.passed ==> (i in s.passed && s'.passed[i] == s.passed[i]) || e == HandOver(i);
  }

  /** Main decoded, signed, reached the agent and installed the certificate. */
  predicate Succeeds(events: seq<Event>) {
    Decode(true) in events && Sign(true) in events && Dial(true) in events && Install(true) in events
  }

  predicate Fails(events: seq<Event>) {
    Sign(false) in events || Dial(false) in events || Install(false) in events
  }

  /** The reply that the events call for. */
  predicate Outcome(events: seq<Event>, reply: string) {
    if Fails(events) then reply == ERROR && Install(true) !in events else reply == OK && Succeeds(events)
  }

  /** Main has not come to these steps yet. */
  predicate NoInstall(events: seq<Event>) {
    Install(true) !in events && Install(false) !in events && Respond !in events
  }

  predicate NoDial(events: seq<Event>) {
    Dial(true) !in events && Dial(false) !in events && NoInstall(events)
  }

  predicate NoSign(events: seq<Event>) {
    Sign(true) !in events && Sign(false) !in events && NoDial(events)
  }

  predicate Decodes(events: seq<Event>) {
    Decode(true) in events && Decode(false) !in events
  }

  /** Main goes from step to step until one fails. */
  predicate Course(events: seq<Event>, main: MainAt) {
    match main
    case Selecting => NoSign(events) && Decode(true) !in events && Decode(false) !in events
    case Decoding => NoSign(events) && Decode(true) !in events && Decode(false) !in events
    case Signing => NoSign(events) && Decodes(events)
    case Dialing => NoDial(events) && Decodes(events) && Sign(true) in events && Sign(false) !in events
    case Installing =>
      && NoInstall(events) && Decodes(events) && Sign(true) in events && Sign(false) !in events
      && Dial(true) in events && Dial(false) !in events
    case Responding(reply) => Respond !in events && Decodes(events) && Outcome(events, reply)
    case Finished => if Respond in events then Outcome(events, OK) || Outcome(events, ERROR)
                     else NoSign(events) && Decode(false) in events
  }

  /** A reply is what the events call for. */
  ghost predicate RepliesHonest(events: seq<Event>, s: State) {
    && (s.responseChan.Some? ==> Respond in events && Outcome(events, s.responseChan.value))
    && (forall i :: IsAnswered(s, i) ==> Respond in events && Outcome(events, s.requests[i].reply))
  }

  /** The reply that main gives to a listening server is not lost. */
  ghost predicate Delivered(events: seq<Event>, s: State) {
    s.listening && Respond in events ==> s.responseChan.Some? || exists i :: IsAnswered(s, i)
  }

  lemma StepCourse(events: seq<Event>, s: State, e: Event)
    requires Course(events, s.main) && Enabled(s, e)
    ensures Course(events + [e], Step(s, e).main)
  {
    assert forall x :: x in events + [e] <==> x in events || x == e;
  }

  lemma OutcomeKept(events: seq<Event>, s: State, e: Event)
    requires Course(events, s.main) && Respond in events && Enabled(s, e)
    ensures forall reply :: Outcome(events + [e], reply) <==> Outcome(events, reply)
  {
    assert s.main.Finished?;
    assert forall x :: x in events + [e] <==> x in events || x == e;
  }

  lemma StepKeepsHonest(events: seq<Event>, s: State, e: Event)
    requires Course(events, s.main) && RepliesHonest(events, s) && Enabled(s, e)
    ensures RepliesHonest(events + [e], Step(s, e))
  {
    var longer, s' := events + [e], Step(s, e);
    assert forall x :: x in longer <==> x in events || x == e;
    assert forall i :: IsAnswered(s', i) ==> (IsAnswered(s, i) && s'.requests[i] == s.requests[i]) || e == Answer(i);
    if Respond in events {
      OutcomeKept(events, s, e);
    }
  }

  lemma StepKeepsDelivered(events: seq<Event>, s: State, e: Event)
    requires Delivered(events, s) && Enabled(s, e)
    ensures Delivered(events + [e], Step(s, e))
  {
    if e.Answer? {
      assert IsAnswered(Step(s, e), e.i);
    } else if i :| IsAnswered(s, i) {
      assert IsAnswered(Step(s, e), i);
    }
  }

  lemma {:induction false} RunSubmitted(before: seq<Event>, s: State, events: seq<Event>)
    requires AllSubmitted(before, s) && AllHeld(before, s) && CanRun(s, events)
    ensures AllSubmitted(before + events, Run(s, events)) && AllHeld(before + events, Run(s, events))
    decreases |events|
  {
    if events == [] {
      assert before + events == before;
    } else {
      StepSubmitted(before, s, events[0]);
      StepHeld(before, s, events[0]);
      RunSubmitted(before + [events[0]], Step(s, events[0]), events[1..]);
      assert before + [events[0]] + events[1..] == before + events;
    }
  }

  lemma {:induction false} RunHonest(before: seq<Event>, s: State, events: seq<Event>)
    requires Course(before, s.main) && RepliesHonest(before, s) && Delivered(before, s) && CanRun(s, events)
    ensures var after, s' := before + events, Run(s, events);
            Course(after, s'.main) && RepliesHonest(after, s') && Delivered(after, s')
    decreases |events|
  {
    if events == [] {
      assert before + events == before;
    } else {
      StepCourse(before, s, events[0]);
      StepKeepsHonest(before, s, events[0]);
      StepKeepsDelivered(before, s, events[0]);
      RunHonest(before + [events[0]], Step(s, events[0]), events[1..]);
      assert before + [events[0]] + events[1..] == before + events;
    }
  }

  /**
   * In every interleaving: main decodes one whole token that a request brought or that was pasted; main is never
   * blocked when it responds; at most one browser request is answered, only after main is done, with ok exactly when
   * the certificate was decoded, signed and installed, and with error exactly when one of these steps failed after the
   * decoding; only requests without a token are turned away; and at most two browser requests ever get their token
   * taken off them.
   */
  lemma HandoffIsSafe(listening: bool, events: seq<Event>)
    requires CanRun(Initial(listening), events)
    ensures var s := Run(Initial(listening), events);
            && (s.decoded.Some? ==> Submitted(events, s.decodedFrom, s.decoded.value))
            && (s.main.Responding? ==> Enabled(s, Respond))
            && (forall i, j :: IsAnswered(s, i) && IsAnswered(s, j) ==> i == j)
            && (forall i :: IsAnswered(s, i) ==> s.main.Finished? && Outcome(events, s.requests[i].reply))
            && (forall i :: IsAnswered(s, i) ==> (s.requests[i].reply == "ok" <==> Install(true) in events))
            && (Install(true) in events ==> Succeeds(events) && !Fails(events))
            && (forall i: nat :: TurnAway(i) in events ==> Arrive(i, "") in events && !IsAnswered(s, i))
            && |s.passed.Keys| <= 2 && (forall i: nat :: i in s.passed <==> HandOver(i) in events)
            && (forall i :: i in s.requests && (s.requests[i].Waiting? || s.requests[i].Answered?) ==> i in s.passed)
  {
    RunKeepsInv(Initial(listening), events);
    RunSubmitted([], Initial(listening), events);
    RunHonest([], Initial(listening), events);
    assert [] + events == events;
    var s := Run(Initial(listening), events);
    TokensSafe(events, s);
    RepliesSafe(events, s);
  }

  lemma TokensSafe(events: seq<Event>, s: State)
    requires AllSubmitted(events, s) && TokensWhole(s) && TokensConserved(s)
    ensures s.decoded.Some? ==> Submitted(events, s.decodedFrom, s.decoded.value)
    ensures |s.passed.Keys| <= 2
  {
    assert |AsSet(s.tokenChan) + AsSet(s.took)| <= 2;
  }

  lemma RepliesSafe(events: seq<Event>, s: State)
    requires Course(events, s.main) && RepliesHonest(events, s) && RepliesLate(s) && RepliesSingle(s)
    ensures forall i :: IsAnswered(s, i) ==> s.main.Finished? && Outcome(events, s.requests[i].reply)
    ensures forall i :: IsAnswered(s, i) ==> (s.requests[i].reply == "ok" <==> Install(true) in events)
    ensures s.main.Responding? ==> Enabled(s, Respond)
    ensures Install(true) in events ==> Succeeds(events) && !Fails(events)
  {
  }

  /** Main ends by responding, or dies on a token that does not decode; a listening server gets the response. */
  lemma HandoffEnds(listening: bool, events: seq<Event>)
    requires CanRun(Initial(listening), events)
    ensures var s := Run(Initial(listening), events);
            && (s.main.Finished? <==> Respond in events || Decode(false) in events)
            && (listening && Respond in events ==> s.responseChan.Some? || exists i :: IsAnswered(s, i))
  {
    RunHonest([], Initial(listening), events);
    assert [] + events == events;
    ListeningKept(Initial(listening), events);
  }

  lemma {:induction false} ListeningKept(s: State, events: seq<Event>)
    requires CanRun(s, events)
    ensures Run(s, events).listening == s.listening
    decreases |events|
  {
    if events != [] {
      ListeningKept(Step(s, events[0]), events[1..]);
    }
  }

  // ---- which request is answered ----

  predicate HandsOver(events: seq<Event>, i: nat) {
    HandOver(i) in events
  }

  /** Main took the token of request i from the channel. */
  predicate Takes(events: seq<Event>, i: nat) {
    exists k: nat :: k < |events| && events[k].SelectToken? && HandsOver(events[..k], i)
  }

  /** Main took the token of request i from the channel at the k-th event, and no paste has replaced it since. */
  predicate HoldsSince(events: seq<Event>, k: nat, i: nat)
    requires k < |events|
  {
    && events[k].SelectToken? && HandsOver(events[..k], i)
    && forall p :: k < p < |events| ==> !events[p].PasteDone?
  }

  predicate Holds(events: seq<Event>, i: nat) {
    exists k: nat :: k < |events| && HoldsSince(events, k, i)
  }

  /** The token of request i was in the shared string when main decoded it. */
  predicate Uses(events: seq<Event>, i: nat) {
    exists d: nat :: d < |events| && events[d].Decode? && Holds(events[..d], i)
  }

  predicate Pastes(events: seq<Event>) {
    exists p :: 0 <= p < |events| && events[p].PasteDone?
  }

  /** What the events so far say about the state and about request i. */
  ghost predicate Explained(events: seq<Event>, s: State, i: nat) {
    && (s.main.Selecting? || s.main.Decoding? ==>
          s.decoded.None? && forall p :: 0 <= p < |events| ==> !events[p].Decode?)
    && (s.main.Selecting? ==>
          && (forall p :: 0 <= p < |events| ==> !events[p].SelectToken?)
          && (HandsOver(events, i) <==> s.tokenChan == Some(i)))
    && (s.took == Some(i) <==> Takes(events, i)) && (s.took.Some? <==> SelectToken in events)
    && (s.decoded.None? ==> (s.source == Browser(i) <==> Holds(events, i)))
    && (s.decoded.Some? ==> (s.decodedFrom == Browser(i) <==> Uses(events, i)))
    && (s.source == Pasted || s.decodedFrom == Pasted ==> Pastes(events))
  }

  lemma HoldsSnoc(events: seq<Event>, e: Event, i: nat)
    ensures Holds(events + [e], i)
            <==> !e.PasteDone? && (Holds(events, i) || (e.SelectToken? && HandsOver(events, i)))
  {
    var longer := events + [e];
    var n := |events|;
    assert longer[..n] == events && longer[n] == e;
    assert HoldsSince(longer, n, i) <==> e.SelectToken? && HandsOver(events, i);
    forall k: nat | k < n ensures HoldsSince(longer, k, i) <==> HoldsSince(events, k, i) && !e.PasteDone? {
      assert longer[..k] == events[..k];
    }
  }

  lemma TakesSnoc(events: seq<Event>, e: Event, i: nat)
    ensures Takes(events + [e], i) <==> Takes(events, i) || (e.SelectToken? && HandsOver(events, i))
  {
    var longer := events + [e];
    assert forall k: nat :: k <= |events| ==> longer[..k] == events[..k];
    assert events[..|events|] == events && longer[|events|] == e;
    assert forall k: nat :: k < |events| ==> longer[k] == events[k];
  }

  lemma UsesSnoc(events: seq<Event>, e: Event, i: nat)
    ensures Uses(events + [e], i) <==> Uses(events, i) || (e.Decode? && Holds(events, i))
  {
    var longer := events + [e];
    assert forall d: nat :: d <= |events| ==> longer[..d] == events[..d];
    assert events[..|events|] == events && longer[|events|] == e;
    assert forall d: nat :: d < |events| ==> longer[d] == events[d];
  }

  lemma StepExplained(events: seq<Event>, s: State, e: Event, i: nat)
    requires Explained(events, s, i) && Enabled(s, e)
    ensures Explained(events + [e], Step(s, e), i)
  {
    HoldsSnoc(events, e, i);
    TakesSnoc(events, e, i);
    UsesSnoc(events, e, i);
    assert (events + [e])[|events|] == e;
    if Pastes(events) {
      var p :| 0 <= p < |events| && events[p].PasteDone?;
      assert (events + [e])[p].PasteDone?;
    }
  }

  /** The events lead from the start to the state. */
  lemma {:induction false} RunExplained(before: seq<Event>, s: State, events: seq<Event>, i: nat)
    requires Explained(before, s, i) && CanRun(s, events)
    ensures Explained(before + events, Run(s, events), i)
    decreases |events|
  {
    if events == [] {
      assert before + events == before;
    } else {
      StepExplained(before, s, events[0], i);
      RunExplained(before + [events[0]], Step(s, events[0]), events[1..], i);
      assert before + [events[0]] + events[1..] == before + events;
    }
  }

  lemma ExplainedFromStart(listening: bool, events: seq<Event>, i: nat)
    requires CanRun(Initial(listening), events)
    ensures Explained(events, Run(Initial(listening), events), i)
  {
    RunExplained([], Initial(listening), events, i);
    assert [] + events == events;
  }

  lemma UsesHandsOver(events: seq<Event>, i: nat)
    requires Uses(events, i)
    ensures HandsOver(events, i)
  {
  }

  /**
   * The request that is answered is the one whose token was decoded exactly when it handed its token over before main
   * chose the channel, and no paste came between that choice and the decoding. When no other request hands over a
   * token, the first holds if main chooses the channel at all, and both hold if nothing is pasted.
   */
  lemma AnsweredIsDecodedIff(listening: bool, events: seq<Event>, i: nat)
    requires CanRun(Initial(listening), events) && IsAnswered(Run(Initial(listening), events), i)
    ensures var s := Run(Initial(listening), events);
            && s.decoded.Some?
            && (s.decodedFrom == Browser(i) <==> Uses(events, i))
            && (s.decodedFrom == Browser(i) ==> i in s.passed && s.decoded == Some(s.passed[i]))
    ensures (forall p :: 0 <= p < |events| && events[p].HandOver? ==> events[p].i == i) ==>
              && (SelectToken in events ==> Takes(events, i))
              && (Pastes(events) || Uses(events, i))
  {
    RunKeepsInv(Initial(listening), events);
    ExplainedFromStart(listening, events, i);
    var s := Run(Initial(listening), events);
    var j := if s.took.Some? then s.took.value else i;
    ExplainedFromStart(listening, events, j);
    j := if s.decodedFrom.Browser? then s.decodedFrom.i else i;
    ExplainedFromStart(listening, events, j);
    if Uses(events, j) {
      UsesHandsOver(events, j);
    }
  }

  lemma RunCons(s: State, e: Event, rest: seq<Event>)
    requires Enabled(s, e) && CanRun(Step(s, e), rest)
    ensures CanRun(s, [e] + rest) && Run(s, [e] + rest) == Run(Step(s, e), rest)
  {
    assert ([e] + rest)[1..] == rest;
  }

  /** From a state in which main is about to decode request 1's token while request 2 waits. */
  lemma SecondAnswered(s: State) returns (events: seq<Event>)
    requires s.listening && s.main.Decoding? && s.responseChan.None? && s.source == Browser(1)
    requires 2 in s.requests && s.requests[2].Waiting?
    ensures CanRun(s, events) && IsAnswered(Run(s, events), 2) && Run(s, events).decodedFrom == Browser(1)
  {
    var s1 := Step(s, Decode(true));
    var s2 := Step(s1, Sign(false));
    var s3 := Step(s2, Respond);
    RunCons(s3, Answer(2), []);
    RunCons(s2, Respond, [Answer(2)] + []);
    RunCons(s1, Sign(false), [Respond] + ([Answer(2)] + []));
    RunCons(s, Decode(true), [Sign(false)] + ([Respond] + ([Answer(2)] + [])));
    events := [Decode(true)] + ([Sign(false)] + ([Respond] + ([Answer(2)] + [])));
  }

  /** There is a run in which one request's token is decoded and another request gets the answer. */
  lemma OtherRequestAnswered() returns (events: seq<Event>)
    ensures CanRun(Initial(true), events)
    ensures IsAnswered(Run(Initial(true), events), 2) && Run(Initial(true), events).decodedFrom == Browser(1)
  {
    var s0 := Initial(true);
    var s1 := Step(s0, Arrive(1, "a"));
    var s2 := Step(s1, HandOver(1));
    var s3 := Step(s2, SelectToken);
    var s4 := Step(s3, Arrive(2, "b"));
    events := SecondAnswered(Step(s4, HandOver(2)));
    RunCons(s4, HandOver(2), events);
    events := [HandOver(2)] + events;
    RunCons(s3, Arrive(2, "b"), events);
    events := [Arrive(2, "b")] + events;
    RunCons(s2, SelectToken, events);
    events := [SelectToken] + events;
    RunCons(s1, HandOver(1), events);
    events := [HandOver(1)] + events;
    RunCons(s0, Arrive(1, "a"), events);
    events := [Arrive(1, "a")] + events;
  }

  /** What main decoded never changes afterwards. */
  lemma {:induction false} DecodesAtMostOnce(s: State, events: seq<Event>)
    requires CanRun(s, events) && s.decoded.Some?
    requires !s.main.Selecting? && !s.main.Decoding?
    ensures Run(s, events).decoded == s.decoded && Run(s, events).decodedFrom == s.decodedFrom
    ensures !Run(s, events).main.Selecting? && !Run(s, events).main.Decoding?
    decreases |events|
  {
    if events != [] {
      DecodesAtMostOnce(Step(s, events[0]), events[1..]);
    }
  }
}
