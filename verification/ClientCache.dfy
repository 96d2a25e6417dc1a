/** The cache of oauth2 HTTP clients, keyed by token identity. */
module ClientCache {
  import opened Common

  class Token {
    const expiry: Time

    constructor (expiry: Time)
      ensures this.expiry == expiry
    {
      this.expiry := expiry;
    }
  }

  class Client {
    constructor () {
    }
  }

  class Cache {
    var clients: map<Token, Client>

    constructor ()
      ensures clients == map[]
    {
      clients := map[];
    }

    method Get(token: Token) returns (client: Client)
      modifies this
      ensures token in old(clients) ==> client == old(clients)[token] && clients == old(clients)
      ensures token !in old(clients) ==> fresh(client) && clients == old(clients)[token := client]
    {
      if token in clients {
        return clients[token];
      }
      client := new Client();
      clients := clients[token := client];
    }

    method Destroy(token: Token)
      modifies this
      ensures clients == old(clients) - {token}
    {
      clients := clients - {token};
    }

    /**
     * Walks the entries in any order, reading the clock for each and deleting while iterating; `reading` tells which
     * of the `readings` clock readings met each token.
     */
    method Cleanup(now: nat -> Time) returns (ghost reading: map<Token, Time>, ghost readings: nat)
      requires NonDecreasing(now)
      modifies this
      ensures reading.Keys == old(clients.Keys)
      ensures forall t :: t in reading ==> now(0) <= reading[t] <= now(LastOf(readings))
      ensures readings == 0 || exists t :: t in reading && reading[t] == now(readings - 1)
      ensures forall t :: t in clients <==> t in old(clients) && !(t.expiry < reading[t])
      ensures forall t :: t in clients ==> clients[t] == old(clients)[t]
    {
      ghost var was := clients;
      var rest := clients.Keys;
      var k := 0;
      reading := map[];
      while rest != {}
        invariant rest <= was.Keys && reading.Keys == was.Keys - rest
        invariant forall t :: t in reading ==> now(0) <= reading[t] <= now(LastOf(k))
        invariant k == 0 || exists t :: t in reading && reading[t] == now(k - 1)
        invariant forall t :: t in clients ==> t in was && clients[t] == was[t]
        invariant forall t :: t in was ==> (t in clients <==> t in rest || !(t.expiry < reading[t]))
        decreases rest
      {
        var token :| token in rest;
        rest := rest - {token};
        reading := reading[token := now(k)];
        if token.expiry < now(k) {
          clients := clients - {token};
        }
        k := k + 1;
        assert token in reading && reading[token] == now(k - 1);
      }
      readings := k;
    }
  }

  // ---- runs under the lock ----

  type Clients = map<Token, Client>

  /** A Get names the client it creates if it finds none; a cleanup meets each token at some clock reading. */
  datatype Event = Get(token: Token, created: Client) | Destroy(token: Token) | Cleanup(reading: Token -> Time)

  predicate Evicts(e: Event, token: Token) {
    match e
    case Get(_, _) => false
    case Destroy(t) => t == token
    case Cleanup(reading) => token.expiry < reading(token)
  }

  function Step(clients: Clients, e: Event): Clients {
    match e
    case Get(t, created) => if t in clients then clients else clients[t := created]
    case Destroy(t) => clients - {t}
    case Cleanup(reading) => map t | t in clients && !(t.expiry < reading(t)) :: clients[t]
  }

  function ClientsAt(events: seq<Event>, k: nat): Clients
    requires k <= |events|
  {
    if k == 0 then map[] else Step(ClientsAt(events, k - 1), events[k - 1])
  }

  /** The client that the k-th event, a Get, returns. */
  function Returned(events: seq<Event>, k: nat): Client
    requires k < |events| && events[k].Get?
  {
    var clients := ClientsAt(events, k);
    if events[k].token in clients then clients[events[k].token] else events[k].created
  }

  /** The k-th event is a Get that finds no client and creates one. */
  predicate Misses(events: seq<Event>, k: nat)
    requires k < |events|
  {
    events[k].Get? && events[k].token !in ClientsAt(events, k)
  }

  /** No client is created twice. */
  ghost predicate CreatesDistinct(events: seq<Event>) {
    forall i, j :: 0 <= i < j < |events| && Misses(events, i) && Misses(events, j) ==>
      events[i].created != events[j].created
  }

  /** A cached client was created by an earlier Get of its token. */
  lemma {:induction false} CreatedEarlier(events: seq<Event>, k: nat, t: Token) returns (h: nat)
    requires k <= |events| && t in ClientsAt(events, k)
    ensures h < k && Misses(events, h) && events[h].token == t && ClientsAt(events, k)[t] == events[h].created
  {
    if t in ClientsAt(events, k - 1) {
      h := CreatedEarlier(events, k - 1, t);
    } else {
      h := k - 1;
    }
  }

  predicate EvictedBetween(events: seq<Event>, i: nat, j: nat, token: Token) {
    exists k :: i < k < j && k < |events| && Evicts(events[k], token)
  }

  /** One event: the token keeps its client unless evicted, and gets another only from a Get. */
  lemma StepClient(clients: Clients, e: Event, t: Token)
    ensures Evicts(e, t) ==> t !in Step(clients, e)
    ensures !Evicts(e, t) && t in clients ==> t in Step(clients, e) && Step(clients, e)[t] == clients[t]
    ensures t !in clients && t in Step(clients, e) ==> e.Get? && e.token == t && Step(clients, e)[t] == e.created
  {
  }

  lemma EvictedLast(events: seq<Event>, i: nat, j: nat, t: Token)
    requires i + 1 < j <= |events|
    ensures EvictedBetween(events, i, j, t) <==> EvictedBetween(events, i, j - 1, t) || Evicts(events[j - 1], t)
  {
  }

  /**
   * After a Get that returned the client created at `h`, the token keeps that client until the first eviction, and
   * never has it again.
   */
  lemma {:induction false} ClientAfterGet(events: seq<Event>, h: nat, i: nat, j: nat)
    requires CreatesDistinct(events) && h <= i < j <= |events| && events[i].Get? && Misses(events, h)
    requires Returned(events, i) == events[h].created
    ensures var clients, t := ClientsAt(events, j), events[i].token;
            if EvictedBetween(events, i, j, t) then t in clients ==> clients[t] != events[h].created
            else t in clients && clients[t] == events[h].created
  {
    var t := events[i].token;
    if j == i + 1 {
      assert !EvictedBetween(events, i, j, t);
    } else {
      ClientAfterGet(events, h, i, j - 1);
      StepClient(ClientsAt(events, j - 1), events[j - 1], t);
      EvictedLast(events, i, j, t);
    }
  }

  /** Two Gets of a token return the same client exactly when nothing between them evicts the token. */
  lemma SameClientIff(events: seq<Event>, i: nat, j: nat)
    requires CreatesDistinct(events)
    requires i < j < |events| && events[i].Get? && events[j].Get? && events[i].token == events[j].token
    ensures Returned(events, i) == Returned(events, j) <==> !EvictedBetween(events, i, j, events[i].token)
  {
    var h := i;
    if events[i].token in ClientsAt(events, i) {
      h := CreatedEarlier(events, i, events[i].token);
    }
    ClientAfterGet(events, h, i, j);
  }

  // ---- the cache itself ----

  /** The same call, apart from the client it creates and from when it reads the clock. */
  predicate SameCall(call: Event, done: Event) {
    match call
    case Get(t, _) => done.Get? && done.token == t
    case Destroy(t) => done.Destroy? && done.token == t
    case Cleanup(_) => done.Cleanup?
  }

  /** Makes a call on the cache; `done` is the event it amounts to, and a client that is created is a new one. */
  method Apply(cache: Cache, call: Event, now: nat -> Time)
    returns (client: Client?, ghost done: Event, ghost readings: nat)
    requires NonDecreasing(now)
    modifies cache
    ensures SameCall(call, done) && cache.clients == Step(old(cache.clients), done)
    ensures call.Get? ==> client == done.created == cache.clients[call.token]
    ensures call.Get? && call.token !in old(cache.clients) ==> fresh(client)
    ensures call.Cleanup? ==>
              forall t :: t in old(cache.clients) ==> now(0) <= done.reading(t) <= now(LastOf(readings))
  {
    client, done, readings := null, call, 0;
    match call
    case Get(token, _) =>
      client := cache.Get(token);
      done := Get(token, client);
    case Destroy(token) =>
      cache.Destroy(token);
    case Cleanup(_) =>
      ghost var reading;
      reading, readings := cache.Cleanup(now);
      done := Cleanup(t => if t in reading then reading[t] else now(0));
  }

  lemma {:induction false} ClientsAtPrefix(events: seq<Event>, e: Event, k: nat)
    requires k <= |events|
    ensures ClientsAt(events + [e], k) == ClientsAt(events, k)
  {
    if k > 0 {
      ClientsAtPrefix(events, e, k - 1);
    }
  }

  /** What the calls made so far returned, and the events they amount to. */
  ghost predicate Follows(calls: seq<Event>, trace: seq<Event>, returned: seq<Client?>) {
    && |trace| == |returned| == |calls|
    && (forall k :: 0 <= k < |calls| ==> SameCall(calls[k], trace[k]))
    && (forall k :: 0 <= k < |calls| && trace[k].Get? ==> returned[k] == Returned(trace, k))
    && CreatesDistinct(trace)
  }

  /** A cleanup meets the tokens at readings of its clock, no later than the last one it takes. */
  ghost predicate ReadsWithin(trace: seq<Event>, k: nat, now: nat -> Time, readings: nat) {
    k < |trace| && (trace[k].Cleanup? ==>
      forall t :: t in ClientsAt(trace, k) ==> now(0) <= trace[k].reading(t) <= now(LastOf(readings)))
  }

  lemma ReadsWithinKept(trace: seq<Event>, e: Event, k: nat, now: nat -> Time, readings: nat)
    requires ReadsWithin(trace, k, now, readings)
    ensures ReadsWithin(trace + [e], k, now, readings)
  {
    ClientsAtPrefix(trace, e, k);
  }

  /** Two Gets of a token returned the same object exactly when nothing between them evicts the token. */
  ghost predicate SameObjectIff(trace: seq<Event>, returned: seq<Client?>)
    requires |returned| == |trace|
  {
    forall i, j :: 0 <= i < j < |trace| && trace[i].Get? && trace[j].Get? && trace[i].token == trace[j].token ==>
      (returned[i] == returned[j] <==> !EvictedBetween(trace, i, j, trace[i].token))
  }

  lemma FollowsSameObject(calls: seq<Event>, trace: seq<Event>, returned: seq<Client?>)
    requires Follows(calls, trace, returned)
    ensures SameObjectIff(trace, returned)
  {
    forall i, j | 0 <= i < j < |trace| && trace[i].Get? && trace[j].Get? && trace[i].token == trace[j].token
      ensures returned[i] == returned[j] <==> !EvictedBetween(trace, i, j, trace[i].token)
    {
      SameClientIff(trace, i, j);
    }
  }

  lemma CreatesDistinctOne(trace: seq<Event>, e: Event)
    requires CreatesDistinct(trace)
    requires Misses(trace + [e], |trace|) ==>
               forall k :: 0 <= k < |trace| && trace[k].Get? ==> trace[k].created != e.created
    ensures CreatesDistinct(trace + [e])
  {
    forall i, j | 0 <= i < j < |trace| + 1 && Misses(trace + [e], i) && Misses(trace + [e], j)
      ensures (trace + [e])[i].created != (trace + [e])[j].created
    {
      ClientsAtPrefix(trace, e, i);
      assert Misses(trace, i);
      if j < |trace| {
        ClientsAtPrefix(trace, e, j);
        assert Misses(trace, j);
      }
    }
  }

  lemma ReturnedPrefix(trace: seq<Event>, e: Event, k: nat)
    requires k < |trace| && trace[k].Get?
    ensures Returned(trace + [e], k) == Returned(trace, k)
  {
    ClientsAtPrefix(trace, e, k);
  }

  /** One more call; if it creates a client, none of the earlier ones created it. */
  lemma FollowsOne(calls: seq<Event>, trace: seq<Event>, returned: seq<Client?>, call: Event, e: Event, client: Client?)
    requires Follows(calls, trace, returned) && SameCall(call, e)
    requires e.Get? ==> client == Returned(trace + [e], |trace|)
    requires Misses(trace + [e], |trace|) ==>
               forall k :: 0 <= k < |trace| && trace[k].Get? ==> trace[k].created != e.created
    ensures Follows(calls + [call], trace + [e], returned + [client])
  {
    CreatesDistinctOne(trace, e);
    forall k | 0 <= k < |trace| && trace[k].Get? ensures Returned(trace + [e], k) == returned[k] {
      ReturnedPrefix(trace, e, k);
    }
  }

  /**
   * Makes calls one after the other on an empty cache, each with its own clock readings. Two Gets of a token return
   * the same object exactly when nothing between them evicts the token.
   */
  method ApplyAll(cache: Cache, calls: seq<Event>, now: nat -> nat -> Time)
    returns (returned: seq<Client?>, ghost trace: seq<Event>, ghost readings: seq<nat>)
    requires (forall n :: NonDecreasing(now(n))) && cache.clients == map[]
    modifies cache
    ensures Follows(calls, trace, returned) && cache.clients == ClientsAt(trace, |trace|)
    ensures SameObjectIff(trace, returned)
    ensures |readings| == |calls| && forall n: nat :: n < |calls| ==> ReadsWithin(trace, n, now(n), readings[n])
  {
    returned, trace, readings := [], [], [];
    for n := 0 to |calls|
      invariant Follows(calls[..n], trace, returned) && cache.clients == ClientsAt(trace, |trace|)
      invariant |readings| == n && forall k: nat :: k < n ==> ReadsWithin(trace, k, now(k), readings[k])
    {
      ghost var done, count;
      var client;
      client, done, count := Apply(cache, calls[n], now(n));
      ClientsAtPrefix(trace, done, n);
      FollowsOne(calls[..n], trace, returned, calls[n], done, client);
      assert calls[..n + 1] == calls[..n] + [calls[n]];
      forall k: nat | k < n ensures ReadsWithin(trace + [done], k, now(k), readings[k]) {
        ReadsWithinKept(trace, done, k, now(k), readings[k]);
      }
      returned, trace, readings := returned + [client], trace + [done], readings + [count];
    }
    assert calls[..|calls|] == calls;
    FollowsSameObject(calls, trace, returned);
  }

  /** A cleanup removes every entry expired at its start and none unexpired at its end. */
  lemma CleanupBounds(clients: Clients, reading: Token -> Time, first: Time, last: Time, t: Token)
    requires t in clients && first <= reading(t) <= last
    ensures t.expiry < first ==> t !in Step(clients, Cleanup(reading))
    ensures last <= t.expiry ==> t in Step(clients, Cleanup(reading))
  {
  }

  /** A token without an expiry carries the zero time, so every cleanup evicts it. */
  lemma NoExpiryEvicted(clients: Clients, reading: Token -> Time, t: Token)
    requires t.expiry == ZERO_TIME && ZERO_TIME < reading(t)
    ensures Evicts(Cleanup(reading), t) && t !in Step(clients, Cleanup(reading))
  {
  }
}
