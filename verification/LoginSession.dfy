/**
 * The browser login session, after the authorization code flow in section 4.1 of RFC 6749. The session lives in a
 * cookie that each request carries in and each response may replace, so a request is a function of the cookie.
 */
module LoginSession {
  import opened Common

  /** An oauth2 token; some tokens never expire. */
  datatype Token = Token(access: string, expiry: Option<Time>)

  /** The oauth2 library counts a token as expired this long before its expiry. */
  const EXPIRY_DELTA: int := 10 * SECOND

  /** Token.Valid of the oauth2 library. */
  predicate Unexpired(t: Token, now: Time) {
    t.access != "" && (t.expiry.None? || !(t.expiry.value - EXPIRY_DELTA < now))
  }

  /** The session variables; a missing string variable reads as "". */
  datatype Cookie = Cookie(state: string, originUrl: string, token: Option<Token>)

  const NO_COOKIE := Cookie("", "", None)

  /** `saved` says whether the response's cookie reaches the browser; `accepted` is the provider's Valid. */
  datatype Event =
    | Login(state: string, saved: bool)
    | Callback(param: string, exchanged: Option<Token>, accepted: bool, saved: bool)
    | Visit(uri: string, now: Time, accepted: bool, saved: bool)
    | Forget   // the browser drops the cookie

  datatype Reply = ToProvider(state: string) | Unauthorized | Failed | ToOrigin(url: string) | ToLogin | Served | Silent

  predicate PassesAuth(c: Cookie, e: Event)
    requires e.Visit?
  {
    c.token.Some? && Unexpired(c.token.value, e.now) && e.accepted
  }

  function Step(c: Cookie, e: Event): (Cookie, Reply) {
    match e
    case Login(state, saved) =>
      (if saved then c.(state := state) else c, ToProvider(state))
    case Callback(param, exchanged, accepted, saved) =>
      if param != c.state then (c, Unauthorized)
      else
        var url := if c.originUrl == "" then "/" else c.originUrl;
        if exchanged.None? then (c, Failed)
        else
          (if saved then c.(token := exchanged) else c, if accepted then ToOrigin(url) else Unauthorized)
    case Visit(uri, now, accepted, saved) =>
      if !PassesAuth(c, e) then (if saved then c.(originUrl := uri) else c, ToLogin) else (c, Served)
    case Forget => (NO_COOKIE, Silent)
  }

  /** The cookie that the k-th request carries, in a session that starts without one. */
  function CookieAt(events: seq<Event>, k: nat): Cookie
    requires k <= |events|
  {
    if k == 0 then NO_COOKIE else Step(CookieAt(events, k - 1), events[k - 1]).0
  }

  function ReplyAt(events: seq<Event>, k: nat): Reply
    requires k < |events|
  {
    Step(CookieAt(events, k), events[k]).1
  }

  /** The state of the latest login whose cookie reached the browser since it was last dropped, or else "". */
  function SentState(events: seq<Event>, k: nat): string
    requires k <= |events|
  {
    if k == 0 || events[k - 1].Forget? then ""
    else if events[k - 1].Login? && events[k - 1].saved then events[k - 1].state
    else SentState(events, k - 1)
  }

  /** The session's state is that of the latest login, and every login sends its own to the provider. */
  lemma {:induction false} StateIsSent(events: seq<Event>, k: nat)
    requires k <= |events|
    ensures CookieAt(events, k).state == SentState(events, k)
    ensures k < |events| && events[k].Login? ==> ReplyAt(events, k) == ToProvider(events[k].state)
  {
    if k > 0 {
      StateIsSent(events, k - 1);
    }
  }

  /** The k-th request is a callback whose state matched the session's and whose token went into the cookie. */
  predicate Stores(events: seq<Event>, k: nat, t: Token) {
    && k < |events| && events[k].Callback? && events[k].saved
    && events[k].param == SentState(events, k) && events[k].exchanged == Some(t)
  }

  /** The k-th request is a login that put its state into the cookie. */
  predicate Starts(events: seq<Event>, k: nat, state: string) {
    k < |events| && events[k] == Login(state, true)
  }

  predicate NoForget(events: seq<Event>, i: nat, j: nat) {
    forall k :: i < k < j && k < |events| ==> !events[k].Forget?
  }

  /** The token of the i-th request is still the latest stored at the k-th. */
  ghost predicate StoredLast(events: seq<Event>, i: nat, k: nat, t: Token) {
    && i < k && Stores(events, i, t) && NoForget(events, i, k)
    && forall j: nat, u :: i < j < k ==> !Stores(events, j, u)
  }

  /** A token in the session was stored by the latest callback that stored any, since the cookie was last dropped. */
  lemma {:induction false} TokenOrigin(events: seq<Event>, k: nat)
    requires k <= |events| && CookieAt(events, k).token.Some?
    ensures exists i: nat :: StoredLast(events, i, k, CookieAt(events, k).token.value)
  {
    var t := CookieAt(events, k).token.value;
    StateIsSent(events, k - 1);
    if Stores(events, k - 1, t) {
      assert StoredLast(events, k - 1, k, t);
    } else {
      TokenOrigin(events, k - 1);
      var i: nat :| StoredLast(events, i, k - 1, t);
      assert StoredLast(events, i, k, t);
    }
  }

  /** A token stays in the session until another is stored or the cookie is dropped, whatever else is requested. */
  lemma {:induction false} TokenKept(events: seq<Event>, i: nat, k: nat, t: Token)
    requires k <= |events| && StoredLast(events, i, k, t)
    ensures CookieAt(events, k).token == Some(t)
  {
    StateIsSent(events, k - 1);
    if i < k - 1 {
      TokenKept(events, i, k - 1, t);
      var e := events[k - 1];
      assert e.Callback? && e.exchanged.Some? ==> !Stores(events, k - 1, e.exchanged.value);
    }
  }

  /** A state in the session was put there by a login. */
  lemma {:induction false} StateOrigin(events: seq<Event>, k: nat)
    requires k <= |events| && CookieAt(events, k).state != ""
    ensures exists i: nat :: i < k && Starts(events, i, CookieAt(events, k).state) && NoForget(events, i, k)
  {
    var state := CookieAt(events, k).state;
    if Starts(events, k - 1, state) {
      assert NoForget(events, k - 1, k);
    } else {
      StateOrigin(events, k - 1);
      var i: nat :| i < k - 1 && Starts(events, i, state) && NoForget(events, i, k - 1);
      assert NoForget(events, i, k);
    }
  }

  /** Every login draws a state of 64 hexadecimal digits; only that it is not empty matters here. */
  predicate StatesDrawn(events: seq<Event>) {
    forall k :: 0 <= k < |events| && events[k].Login? ==> events[k].state != ""
  }

  /** A callback that stored a token answers an earlier login exactly when its state parameter is not empty. */
  lemma AnswersLoginIff(events: seq<Event>, i: nat, t: Token)
    requires StatesDrawn(events) && Stores(events, i, t)
    ensures (exists l: nat :: l < i && Starts(events, l, events[i].param) && NoForget(events, l, i))
            <==> events[i].param != ""
  {
    if events[i].param != "" {
      StateIsSent(events, i);
      StateOrigin(events, i);
    }
  }

  /** A session that never logged in, served on a callback that carried no state. */
  lemma EmptyStateServed(t: Token, uri: string, now: Time)
    requires Unexpired(t, now)
    ensures var events := [Callback("", Some(t), true, true), Visit(uri, now, true, true)];
            Stores(events, 0, t) && ReplyAt(events, 1) == Served
  {
    var events := [Callback("", Some(t), true, true), Visit(uri, now, true, true)];
    assert CookieAt(events, 0) == NO_COOKIE;
    assert CookieAt(events, 1) == Step(NO_COOKIE, events[0]).0;
  }

  /**
   * In every session, a protected page is served exactly when the token that a matching callback stored last, since the
   * cookie was last dropped, expires in ten seconds or later and is accepted at that request.
   */
  lemma ServedIffTokenStored(events: seq<Event>, k: nat)
    requires k < |events| && events[k].Visit?
    ensures ReplyAt(events, k) == Served
            <==> exists i: nat, t :: StoredLast(events, i, k, t) && t.access != "" && events[k].accepted
                   && (t.expiry.Some? ==> events[k].now + 10 * SECOND <= t.expiry.value)
    ensures ReplyAt(events, k) != Served ==> ReplyAt(events, k) == ToLogin
  {
    if CookieAt(events, k).token.Some? {
      TokenOrigin(events, k);
    }
    forall i: nat, t | StoredLast(events, i, k, t) ensures CookieAt(events, k).token == Some(t) {
      TokenKept(events, i, k, t);
    }
  }

  /** The k-th request is a protected page turned away towards the login. */
  predicate TurnsAway(events: seq<Event>, k: nat) {
    k < |events| && events[k].Visit? && events[k].saved && ReplyAt(events, k) == ToLogin
  }

  /** Whatever else happens, the page first asked for is remembered until another one is turned away. */
  lemma {:induction false} OriginKept(events: seq<Event>, v: nat, k: nat)
    requires TurnsAway(events, v) && v < k <= |events| && NoForget(events, v, k)
    requires forall j: nat :: v < j < k ==> !TurnsAway(events, j)
    ensures CookieAt(events, k).originUrl == events[v].uri
  {
    if k > v + 1 {
      OriginKept(events, v, k - 1);
      assert !TurnsAway(events, k - 1) && !events[k - 1].Forget?;
    }
  }

  /** Where no page has been turned away since the cookie was dropped, none is remembered. */
  lemma {:induction false} NothingKept(events: seq<Event>, f: nat, k: nat)
    requires f <= k <= |events| && (f == 0 || events[f - 1].Forget?)
    requires forall j: nat :: f <= j < k ==> !TurnsAway(events, j)
    ensures CookieAt(events, k).originUrl == ""
  {
    if k > f {
      NothingKept(events, f, k - 1);
      assert !TurnsAway(events, k - 1);
    }
  }

  /**
   * A callback succeeds exactly when it brings the state of the latest login, its code is exchanged and the token is
   * accepted; it fails when the code is not exchanged, and is unauthorized otherwise. Where no page was turned away,
   * a successful one leads to the start page.
   */
  lemma CallbackDecided(events: seq<Event>, f: nat, k: nat)
    requires f <= k < |events| && events[k].Callback? && (f == 0 || events[f - 1].Forget?)
    ensures ReplyAt(events, k).ToOrigin?
            <==> events[k].param == SentState(events, k) && events[k].exchanged.Some? && events[k].accepted
    ensures ReplyAt(events, k).Failed? <==> events[k].param == SentState(events, k) && events[k].exchanged.None?
    ensures ReplyAt(events, k).ToOrigin? || ReplyAt(events, k).Failed? || ReplyAt(events, k).Unauthorized?
    ensures ReplyAt(events, k).ToOrigin? && (forall j: nat :: f <= j < k ==> !TurnsAway(events, j)) ==>
              ReplyAt(events, k).url == "/"
  {
    StateIsSent(events, k);
    if forall j: nat :: f <= j < k ==> !TurnsAway(events, j) {
      NothingKept(events, f, k);
    }
  }

  /**
   * After a page is turned away, every successful callback redirects back to it, until another page is turned away.
   * The request for it then passes if the token has not expired and the provider has not changed its answer: there
   * is no login loop.
   */
  lemma NoLoginLoop(events: seq<Event>, v: nat, k: nat)
    requires TurnsAway(events, v) && v < k < |events| && NoForget(events, v, k)
    requires forall j: nat :: v < j < k ==> !TurnsAway(events, j)
    requires ReplyAt(events, k).ToOrigin?
    ensures ReplyAt(events, k) == ToOrigin(if events[v].uri == "" then "/" else events[v].uri)
    ensures k + 1 < |events| && events[k + 1].Visit? && events[k].saved ==>
              (ReplyAt(events, k + 1) == Served
               <==> Unexpired(events[k].exchanged.value, events[k + 1].now) && events[k + 1].accepted)
  {
    OriginKept(events, v, k);
  }

  /** The k-th request leaves the session's state as it was. */
  predicate KeepsState(events: seq<Event>, k: nat) {
    k < |events| && !events[k].Forget? && !(events[k].Login? && events[k].saved)
  }

  lemma {:induction false} StateKept(events: seq<Event>, l: nat, k: nat)
    requires l < k <= |events| && events[l].Login? && events[l].saved
    requires forall j: nat :: l < j < k ==> KeepsState(events, j)
    ensures ReplyAt(events, l) == ToProvider(CookieAt(events, k).state)
  {
    if k > l + 1 {
      StateKept(events, l, k - 1);
      assert KeepsState(events, k - 1);
    }
  }

  /**
   * A callback that brings back the state sent to the provider by the latest login succeeds exactly when the code is
   * exchanged and the provider accepts the token.
   */
  lemma LoginCompletes(events: seq<Event>, l: nat, k: nat)
    requires l < k < |events| && events[l].Login? && events[l].saved && events[k].Callback?
    requires forall j: nat :: l < j < k ==> KeepsState(events, j)
    requires ReplyAt(events, l) == ToProvider(events[k].param)
    ensures ReplyAt(events, k).ToOrigin? <==> events[k].exchanged.Some? && events[k].accepted
  {
    StateKept(events, l, k);
  }
}
