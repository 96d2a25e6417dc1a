/** The signing exchange: the server's /sign handler and the client's retry loop for a required reason. */
module SignProtocol {
  import opened Common
  import opened Records
  import Lifecycle
  import Signer

  type Token = string

  datatype Request = Request(key: string, validUntil: Time, message: string, version: string)

  /** needReason is the X-Need-Reason header; ok is the status field of the body. */
  datatype Response = Response(code: int, needReason: bool, ok: bool, body: string)

  /** What the server holds: the records, the provider tokens it has revoked, and the certificates it has signed. */
  datatype Server = Server(records: map<string, Record>, revokedTokens: seq<Token>, signed: seq<Cert>)

  datatype Config = Config(requireReason: bool, ca: Lifecycle.Config)

  /** One round trip as the world answers it: transport, provider, JSON, the SSH library and the clock. */
  datatype Attempt = Attempt(
    sent: bool, received: bool, tokenValid: bool, decodes: bool, username: string,
    keyParses: bool, signs: bool, t0: Time, t1: Time, t2: Time, raw: string)

  predicate Authorized(a: Attempt) {
    a.tokenValid && a.decodes
  }

  predicate NeedsReason(c: Config, req: Request) {
    c.requireReason && req.message == ""
  }

  function CertFor(c: Config, req: Request, a: Attempt): Cert {
    Signer.Stamp(a.username, Signer.Clamp(req.validUntil, a.t0 + c.ca.maxAge), c.ca.principals, a.t1, a.t2, a.raw)
  }

  /** The start of the text that goes with a failure, before the details of a foreign error. */
  function ErrorText(code: int): string {
    match code
    case 400 => "Bad Request: "
    case 401 => "Unauthorized: unauthorized"
    case 403 => "Forbidden: signing request needs a reason"
    case _ => "Internal Server Error: error signing key"
  }

  function Fail(code: int, needReason: bool): Response {
    Response(code, needReason, false, ErrorText(code))
  }

  /** What one request may do to the server. */
  ghost predicate Handled(c: Config, before: Server, after: Server, token: Token, req: Request, a: Attempt) {
    if !Authorized(a) || NeedsReason(c, req) then
      // refused, or asked for a reason: nothing happened
      after == before
    else
      // the token is spent, whether or not a certificate comes of it
      && after.revokedTokens == before.revokedTokens + [token]
      && if a.keyParses && a.signs then
           var cert := CertFor(c, req, a);
           && after.signed == before.signed + [cert]
           && after.records
              == Lifecycle.Put(c.ca.backend, before.records, MakeRecord(cert).(message := req.message))
         else
           after.signed == before.signed && after.records == before.records
  }

  /** A certificate that the handler issues is recorded as in the Sign step of the certificate's life. */
  lemma HandledIsLifecycleSign(c: Config, before: Server, after: Server, token: Token, req: Request, a: Attempt,
                               now: Time, ledger: seq<Lifecycle.Entry>, at: Time)
    requires Handled(c, before, after, token, req, a) && after.signed != before.signed
    ensures var e := Lifecycle.Sign(a.username, req.validUntil, req.message, a.raw, a.t0, a.t1, a.t2, at);
            after.records == Lifecycle.Step(c.ca, Lifecycle.State(before.records, now, ledger), e).store
  {
  }

  class Application {
    const config: Config
    var server: Server

    constructor (config: Config)
      ensures this.config == config && server == Server(map[], [], [])
    {
      this.config := config;
      server := Server(map[], [], []);
    }

    /** The /sign handler. */
    method Sign(token: Token, req: Request, a: Attempt) returns (resp: Response)
      modifies this
      ensures Handled(config, old(server), server, token, req, a)
      ensures resp.needReason <==> Authorized(a) && NeedsReason(config, req)
      ensures resp.needReason ==> resp.code == 403
      ensures !a.tokenValid ==> resp.code == 401
      ensures a.tokenValid && !a.decodes ==> resp.code == 400
      ensures Authorized(a) && !NeedsReason(config, req) ==> resp.code == if resp.ok then 200 else 500
      ensures resp.ok <==> server.signed != old(server.signed)
      ensures resp.body == if resp.ok then a.raw else ErrorText(resp.code)
    {
      if !a.tokenValid {
        return Fail(401, false);
      }
      if !a.decodes {
        return Fail(400, false);
      }
      if config.requireReason && req.message == "" {
        return Fail(403, true);
      }
      server := server.(revokedTokens := server.revokedTokens + [token]);
      if !a.keyParses || !a.signs {
        return Fail(500, false);
      }
      var cert := CertFor(config, req, a);
      server := server.(signed := server.signed + [cert]);
      var rec := MakeRecord(cert).(message := req.message);
      server := server.(records := Lifecycle.Put(config.ca.backend, server.records, rec));
      return Response(200, false, true, cert.raw);
    }
  }

  // ---- the client ----

  datatype Result = Certificate(raw: string) | Rejected(body: string) | TransportError

  /** The message of the k-th attempt: empty at first, then the answer to the previous prompt. */
  function Message(answers: nat -> string, k: nat): string {
    if k == 0 then "" else answers(k - 1)
  }

  /** The k-th attempt ends with the server asking for a reason. */
  predicate Asks(c: Config, attempts: nat -> Attempt, answers: nat -> string, k: nat) {
    && attempts(k).sent && attempts(k).received && Authorized(attempts(k))
    && c.requireReason && Message(answers, k) == ""
  }

  /** The first attempt that is not met with a request for a reason. */
  ghost predicate Last(c: Config, attempts: nat -> Attempt, answers: nat -> string, n: nat) {
    !Asks(c, attempts, answers, n) && forall k: nat :: k < n ==> Asks(c, attempts, answers, k)
  }

  /** The request of the k-th attempt: only the message changes from one attempt to the next. */
  function RequestAt(first: Request, answers: nat -> string, k: nat): Request {
    first.(message := Message(answers, k))
  }

  /**
   * The client's Sign, talking to the handler; `answers` are the replies at the prompt, empty at end of input.
   * The precondition is the exact condition under which the loop ends, see LoopEndsIff.
   */
  method Sign(app: Application, token: Token, first: Request, attempts: nat -> Attempt, answers: nat -> string)
    returns (result: Result, n: nat)
    requires first.message == ""
    requires exists k: nat :: !Asks(app.config, attempts, answers, k)
    modifies app
    ensures Last(app.config, attempts, answers, n)
    // the whole exchange has the effect of its last request alone
    ensures if attempts(n).sent
            then Handled(app.config, old(app.server), app.server, token, RequestAt(first, answers, n), attempts(n))
            else app.server == old(app.server)
    ensures result.TransportError? <==> !(attempts(n).sent && attempts(n).received)
    ensures result.Certificate? <==> app.server.signed != old(app.server.signed) && attempts(n).received
    ensures result.Certificate? ==> result.raw == attempts(n).raw
    ensures result.Rejected? ==>
              var a := attempts(n);
              result.body == if !a.tokenValid then "Unauthorized: unauthorized"
                             else if !a.decodes then "Bad Request: "
                             else "Internal Server Error: error signing key"
  {
    ghost var end: nat :| !Asks(app.config, attempts, answers, end);
    var req := first;
    n := 0;
    while true
      invariant n <= end && req == first.(message := Message(answers, n))
      invariant app.server == old(app.server)
      invariant forall k: nat :: k < n ==> Asks(app.config, attempts, answers, k)
      decreases end - n
    {
      var a := attempts(n);
      if !a.sent {
        return TransportError, n;
      }
      var resp := app.Sign(token, req, a);
      if !a.received {
        return TransportError, n;
      }
      if resp.code == 403 && resp.needReason {
        req := req.(message := answers(n));
        n := n + 1;
      } else {
        return if resp.ok then Certificate(resp.body) else Rejected(resp.body), n;
      }
    }
  }

  /** The loop runs for ever exactly when a reason is required, none is ever given, and no attempt fails otherwise. */
  lemma LoopEndsIff(c: Config, attempts: nat -> Attempt, answers: nat -> string)
    ensures (exists k: nat :: !Asks(c, attempts, answers, k))
            <==> !(&& c.requireReason
                   && (forall k: nat :: attempts(k).sent && attempts(k).received && Authorized(attempts(k)))
                   && (forall k: nat :: answers(k) == ""))
  {
    if forall k: nat :: Asks(c, attempts, answers, k) {
      forall k: nat ensures answers(k) == "" {
        assert Asks(c, attempts, answers, k + 1);
      }
      forall k: nat ensures attempts(k).sent && attempts(k).received && Authorized(attempts(k)) {
        assert Asks(c, attempts, answers, k);
      }
      assert Asks(c, attempts, answers, 0);
    }
  }

  /** The loop ends no later than the attempt that carries the first non-empty answer. */
  lemma EndsByFirstAnswer(c: Config, attempts: nat -> Attempt, answers: nat -> string, n: nat, p: nat)
    requires Last(c, attempts, answers, n) && answers(p) != ""
    ensures n <= p + 1
  {
    assert !Asks(c, attempts, answers, p + 1);
  }

  /**
   * Over the whole exchange at most one token is spent, one certificate signed and one record written; without the
   * token spent nothing changes at all; and a reason that was required is the last answer given, the first that is
   * not empty, and is recorded with the certificate, the user and the configured principals.
   */
  lemma ExchangeEffect(c: Config, before: Server, after: Server, token: Token, first: Request,
                       attempts: nat -> Attempt, answers: nat -> string, n: nat)
    requires Last(c, attempts, answers, n)
    requires Handled(c, before, after, token, RequestAt(first, answers, n), attempts(n))
    ensures after == before || after.revokedTokens == before.revokedTokens + [token]
    ensures |after.signed| <= |before.signed| + 1
    ensures forall id :: id in before.records ==> id in after.records
    ensures forall id1, id2 ::
              && id1 in after.records && (id1 in before.records ==> before.records[id1] != after.records[id1])
              && id2 in after.records && (id2 in before.records ==> before.records[id2] != after.records[id2])
              ==> id1 == id2
    ensures after.signed != before.signed && c.requireReason ==>
              n > 0 && answers(n - 1) != "" && forall k: nat :: k < n - 1 ==> answers(k) == ""
    ensures after.records != before.records ==>
              var id := after.signed[|before.signed|].keyId;
              && id in after.records && after.records[id].message == Message(answers, n)
              && after.records[id].principals == [attempts(n).username] + c.ca.principals
              && after.records[id].raw == attempts(n).raw && !after.records[id].revoked
  {
    forall k: nat | k < n - 1 ensures answers(k) == "" {
      assert Asks(c, attempts, answers, k + 1);
    }
  }
}
