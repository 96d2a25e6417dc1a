/** The GitLab provider: which configurations it accepts, and which users it lets in. */
module GitLab {
  import opened Common
  import opened Strings

  type Options = map<string, string>

  function Opt(opts: Options, key: string): string {
    if key in opts then opts[key] else ""
  }

  /** strconv.ParseBool with the error ignored. */
  predicate ParseBool(s: string) {
    s == "1" || s == "t" || s == "T" || s == "true" || s == "TRUE" || s == "True"
  }

  datatype Provider = Provider(groups: seq<string>, whitelist: set<string>, allUsers: bool, siteUrl: string)

  /** The deprecated `group` option counts only when its text does not occur in `groups`. */
  predicate ExtraGroup(opts: Options) {
    "group" in opts && !Contains(Opt(opts, "groups"), opts["group"])
  }

  /** The groups of a configuration: the trimmed parts of `groups`, if set at all, and then the deprecated one. */
  ghost predicate AreGroups(opts: Options, groups: seq<string>) {
    var parts := if "groups" in opts then Split(opts["groups"], ',') else [];
    && |groups| == |parts| + (if ExtraGroup(opts) then 1 else 0)
    && (forall i :: 0 <= i < |parts| ==> groups[i] == TrimSpace(parts[i]))
    && (ExtraGroup(opts) ==> groups[|parts|] == opts["group"])
  }

  method ProvidedAuthGroups(opts: Options) returns (sliced: seq<string>)
    ensures AreGroups(opts, sliced)
  {
    sliced := [];
    if "groups" in opts {
      sliced := Split(opts["groups"], ',');
      ghost var parts := sliced;
      for i := 0 to |sliced|
        invariant |sliced| == |parts|
        invariant forall j :: 0 <= j < i ==> sliced[j] == TrimSpace(parts[j])
        invariant forall j :: i <= j < |parts| ==> sliced[j] == parts[j]
      {
        sliced := sliced[i := TrimSpace(sliced[i])];
      }
    }
    if "group" in opts && !Contains(Opt(opts, "groups"), opts["group"]) {
      sliced := sliced + [opts["group"]];
    }
  }

  /** The configurations New accepts. */
  predicate Accepts(opts: Options, users: seq<string>) {
    var site := Opt(opts, "siteurl");
    && (ParseBool(Opt(opts, "allusers")) || Opt(opts, "groups") != "" || users != [])
    && (if site != "" then site[|site| - 1] == '/' else !ParseBool(Opt(opts, "allusers")))
  }

  ghost predicate Configured(opts: Options, users: seq<string>, p: Provider) {
    && AreGroups(opts, p.groups)
    && p.whitelist == (set u | u in users)
    && p.allUsers == ParseBool(Opt(opts, "allusers"))
    && p.siteUrl == if Opt(opts, "siteurl") == "" then "https://gitlab.com/" else Opt(opts, "siteurl")
  }

  method New(opts: Options, users: seq<string>) returns (r: Result<Provider>)
    ensures r.Ok? <==> Accepts(opts, users)
    ensures r.Ok? ==> Configured(opts, users, r.value)
  {
    var whitelist := {};
    for i := 0 to |users|
      invariant whitelist == set u | u in users[..i]
    {
      assert users[..i + 1] == users[..i] + [users[i]];
      whitelist := whitelist + {users[i]};
    }
    assert users[..|users|] == users;
    assert users != [] ==> users[0] in whitelist;
    var allUsers := ParseBool(Opt(opts, "allusers"));
    if !allUsers && Opt(opts, "groups") == "" && |whitelist| == 0 {
      return Err;
    }
    var site := "https://gitlab.com/";
    if Opt(opts, "siteurl") != "" {
      site := Opt(opts, "siteurl");
      if site[|site| - 1] != '/' {
        return Err;
      }
    } else if allUsers {
      return Err;
    }
    var groups := ProvidedAuthGroups(opts);
    return Ok(Provider(groups, whitelist, allUsers, site));
  }

  /** What the API answers in one call: the user name, fetched twice, and each membership query. */
  datatype Answers = Answers(tokenValid: bool, first: Option<string>, second: Option<string>, member: nat -> bool)

  /** Username: the name on the second fetch, or "" when that fails. */
  function Username(a: Answers): string {
    if a.second.Some? then a.second.value else ""
  }

  /** The rule that Valid implements. */
  ghost predicate LetsIn(p: Provider, a: Answers) {
    && a.tokenValid
    && (|| p.allUsers
        || (&& a.first.Some?
            && (p.whitelist == {} || Username(a) in p.whitelist)
            && (p.groups == [] || exists i :: 0 <= i < |p.groups| && a.member(i))))
  }

  method Valid(p: Provider, a: Answers) returns (ok: bool)
    ensures ok <==> LetsIn(p, a)
  {
    if !a.tokenValid {
      return false;
    }
    if p.allUsers {
      return true;
    }
    if !a.first.Some? {
      return false;
    }
    if |p.whitelist| > 0 && Username(a) !in p.whitelist {
      return false;
    }
    if |p.groups| == 0 {
      return true;
    }
    for idx := 0 to |p.groups|
      invariant forall j :: 0 <= j < idx ==> !a.member(j)
      invariant idx < |p.groups|
    {
      var isMember := a.member(idx);
      if !isMember && idx == |p.groups| - 1 {
        return false;
      }
      if isMember {
        break;
      }
    }
    return true;
  }

  /** Under a configuration New accepts, a user is let in without a group check only from a non-empty whitelist. */
  lemma NoGroupsNeedsWhitelist(opts: Options, users: seq<string>, p: Provider, a: Answers)
    requires Accepts(opts, users) && Configured(opts, users, p)
    requires p.groups == [] && !p.allUsers
    ensures p.whitelist != {}
    ensures LetsIn(p, a) ==> a.first.Some? && Username(a) in p.whitelist
  {
    assert "groups" !in opts;
    assert users[0] in p.whitelist;
  }

  /**
   * Everyone with a valid token is let in only if `allusers` is spelled as true, and then only on a site that is
   * configured. Otherwise the site is the public one unless another is configured.
   */
  lemma AllUsersNeedsSite(opts: Options, users: seq<string>, p: Provider, a: Answers)
    requires Accepts(opts, users) && Configured(opts, users, p)
    ensures p.allUsers <==> "allusers" in opts && opts["allusers"] in ["1", "t", "T", "true", "TRUE", "True"]
    ensures p.allUsers ==> (LetsIn(p, a) <==> a.tokenValid)
    ensures p.allUsers ==> "siteurl" in opts && p.siteUrl == opts["siteurl"]
    ensures "siteurl" !in opts ==> p.siteUrl == "https://gitlab.com/"
  {
  }

  /**
   * The name that the first fetch found does not matter. The second one's does: another outcome of that fetch changes
   * the decision exactly when the whitelist holds just one of the two names and the rest of the rule is met.
   */
  lemma SecondFetchDecides(p: Provider, a: Answers, first: string, second: Option<string>)
    requires a.first.Some?
    ensures LetsIn(p, a) == LetsIn(p, a.(first := Some(first)))
    ensures LetsIn(p, a) != LetsIn(p, a.(second := second))
            <==> && !p.allUsers && p.whitelist != {} && LetsIn(p.(whitelist := {}), a)
                 && (Username(a) in p.whitelist <==> Username(a.(second := second)) !in p.whitelist)
  {
  }

  /**
   * A whitelist of one user lets anyone in whom the second fetch calls by that name, and keeps that user out when the
   * second fetch fails.
   */
  lemma FetchesDisagree(site: string, member: nat -> bool)
    ensures var p := Provider([], {"user"}, false, site);
            && LetsIn(p, Answers(true, Some("other"), Some("user"), member))
            && !LetsIn(p, Answers(true, Some("user"), None, member))
  {
  }
}
