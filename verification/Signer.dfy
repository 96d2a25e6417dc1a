/** The key signer: expiry clamp, key id, validity window, permissions and the revocation list. */
module Signer {
  import opened Common
  import opened Strings
  import opened Records
  import KeyId

  const BACKDATE: int := 300 * SECOND

  /** The effect of lowering a requested expiry to the latest one allowed. */
  function Clamp(until: Time, latest: Time): Time {
    if until > latest then latest else until
  }

  /**
   * The certificate SignUserKey fills in, once the request is clamped to `until`, from the second and third
   * clock readings.
   */
  function Stamp(username: string, until: Time, principals: seq<string>, t1: Time, t2: Time, raw: string): (cert: Cert)
    ensures ValidCert(cert)
  {
    Cert(KeyId.KeyId(username, Unix(t1)), [username] + principals,
         ToUint64(Unix(t2 - BACKDATE)), ToUint64(Unix(until)), raw)
  }

  /**
   * The record of the certificate issued for a request until `until`, from non-decreasing clock readings. Its ends are
   * exact to the second and its window is at most max_age rounded up plus five minutes. The certificate's own,
   * unsigned fields are these ends in seconds exactly when they do not lie before the epoch.
   */
  lemma SignWindow(user: string, until: Time, maxAge: int, principals: seq<string>,
                   t0: Time, t1: Time, t2: Time, raw: string)
    requires t0 <= t1 <= t2
    requires IsInt64(Unix(Clamp(until, t0 + maxAge))) && IsInt64(Unix(t2 - BACKDATE))
    ensures var cert := Stamp(user, Clamp(until, t0 + maxAge), principals, t1, t2, raw);
            var rec := MakeRecord(cert);
            // the whole second of the earlier of the request and the latest expiry allowed
            && (forall s: int :: FromUnix(s) <= rec.expires <==> FromUnix(s) <= until && FromUnix(s) <= t0 + maxAge)
            && rec.createdAt <= t2 - 5 * 60 * SECOND < rec.createdAt + SECOND
            && rec.expires - rec.createdAt <= ((maxAge + SECOND - 1) / SECOND + 300) * SECOND
            && (FromUnix(cert.validBefore) == rec.expires <==> rec.expires >= 0)
            && (FromUnix(cert.validAfter) == rec.createdAt <==> rec.createdAt >= 0)
    ensures var cert := Stamp(user, Clamp(until, t0 + maxAge), principals, t1, t2, raw);
            && (exists s: int :: FromUnix(s) <= t1 < FromUnix(s) + SECOND && cert.keyId == KeyId.KeyId(user, s))
            && |cert.principals| == 1 + |principals| && cert.principals[0] == user && cert.principals[1..] == principals
  {
    var before, after := Unix(Clamp(until, t0 + maxAge)), Unix(t2 - BACKDATE);
    Uint64RoundTrip(before);
    Uint64RoundTrip(after);
    UnixIsFloor(Clamp(until, t0 + maxAge));
    UnixIsFloor(t2 - BACKDATE);
    UnixIsFloor(t1);
    WholeSeconds(before, after, t0, t2, maxAge);
  }

  /**
   * The bound that max_age is meant to put on a certificate's validity: it holds of the ValidBefore that SSH servers
   * read exactly when the request's expiry does not lie before the epoch.
   */
  lemma ValidBeforeBoundedIff(user: string, until: Time, maxAge: int, principals: seq<string>,
                              t0: Time, t1: Time, t2: Time, raw: string)
    requires 0 <= Unix(t0 + maxAge) && IsInt64(Unix(t0 + maxAge)) && IsInt64(Unix(until))
    ensures var cert := Stamp(user, Clamp(until, t0 + maxAge), principals, t1, t2, raw);
            cert.validBefore <= Unix(t0 + maxAge) <==> 0 <= Unix(until)
  {
  }

  /** A request without an expiry carries the zero time; its certificate is valid for hundreds of billions of years. */
  lemma MissingExpiryUnbounded(user: string, maxAge: int, principals: seq<string>,
                               t0: Time, t1: Time, t2: Time, raw: string)
    requires ZERO_TIME <= t0 + maxAge
    ensures Stamp(user, Clamp(ZERO_TIME, t0 + maxAge), principals, t1, t2, raw).validBefore == 18446744011573954816
  {
  }

  lemma WholeSeconds(before: int, after: int, t0: Time, t2: Time, maxAge: int)
    requires t0 <= t2 && FromUnix(before) <= t0 + maxAge && t2 - BACKDATE < FromUnix(after) + SECOND
    ensures before - after <= (maxAge + SECOND - 1) / SECOND + 300
  {
  }

  // ---- permissions ----

  predicate IsOption(perm: string) {
    '=' in perm
  }

  function OptionName(perm: string): string {
    TrimSpace(Split(perm, '=')[0])
  }

  function OptionValue(perm: string): string
    requires IsOption(perm)
  {
    SplitTwo(perm);
    TrimSpace(Split(perm, '=')[1])
  }

  lemma SplitTwo(perm: string)
    requires IsOption(perm)
    ensures |Split(perm, '=')| >= 2
  {
  }

  /** Everything after the first '='. */
  function AfterEquals(perm: string): string
    requires IsOption(perm)
  {
    perm[IndexOf(perm, '=') + 1..]
  }

  lemma TrimKeeps(s: string, c: char)
    requires c in s && !IsSpace(c)
    ensures c in TrimSpace(s)
  {
  }

  /** An option keeps its whole value exactly when the entry has one '='; a longer value is cut at the second. */
  lemma OptionValueWhole(perm: string)
    requires IsOption(perm)
    ensures OptionValue(perm) == TrimSpace(AfterEquals(perm)) <==> '=' !in AfterEquals(perm)
    ensures OptionName(perm) == TrimSpace(perm[..IndexOf(perm, '=')])
  {
    var front, after := perm[..IndexOf(perm, '=')], AfterEquals(perm);
    assert perm == front + ['='] + after;
    SplitFirst(front, '=', after);
    var value := Split(after, '=')[0];
    assert Split(perm, '=')[1] == value;
    var l, r := TrimSpaceRemoves(value);
    assert '=' !in TrimSpace(value);
    if '=' in after {
      TrimKeeps(after, '=');
    }
  }

  datatype Permissions = Permissions(options: map<string, string>, extensions: map<string, string>)

  /** One turn of the loop over the configured permissions. */
  function AddPermission(p: Permissions, perm: string): Permissions {
    if IsOption(perm) then p.(options := p.options[OptionName(perm) := OptionValue(perm)])
    else p.(extensions := p.extensions[perm := ""])
  }

  function Fold(perms: seq<string>): Permissions {
    if perms == [] then Permissions(map[], map[])
    else AddPermission(Fold(perms[..|perms| - 1]), perms[|perms| - 1])
  }

  predicate Sets(perms: seq<string>, i: int, name: string) {
    0 <= i < |perms| && IsOption(perms[i]) && OptionName(perms[i]) == name
  }

  /** The last entry that names an option decides its value. */
  lemma {:induction false} LastEntryWins(perms: seq<string>, i: int, name: string)
    requires Sets(perms, i, name)
    requires forall j :: i < j < |perms| ==> !Sets(perms, j, name)
    ensures name in Fold(perms).options && Fold(perms).options[name] == OptionValue(perms[i])
  {
    var n := |perms| - 1;
    if i < n {
      forall j | i < j < n ensures !Sets(perms[..n], j, name) {
        assert !Sets(perms, j, name);
      }
      LastEntryWins(perms[..n], i, name);
      assert !Sets(perms, n, name);
    }
  }

  /** Only named options are set. */
  lemma {:induction false} OptionsAreNamed(perms: seq<string>, name: string)
    requires name in Fold(perms).options
    ensures exists i :: Sets(perms, i, name)
  {
    var n := |perms| - 1;
    if !Sets(perms, n, name) {
      OptionsAreNamed(perms[..n], name);
      var i :| Sets(perms[..n], i, name);
      assert Sets(perms, i, name);
    }
  }

  /** Entries without '=' become extensions with no value, and nothing else does. */
  lemma {:induction false} PlainEntriesExtend(perms: seq<string>, perm: string)
    ensures perm in Fold(perms).extensions <==> perm in perms && !IsOption(perm)
    ensures perm in Fold(perms).extensions ==> Fold(perms).extensions[perm] == ""
  {
    if perms != [] {
      var n := |perms| - 1;
      PlainEntriesExtend(perms[..n], perm);
      assert perm in perms <==> perm in perms[..n] || perm == perms[n] by {
        assert perms == perms[..n] + [perms[n]];
      }
    }
  }

  const DEFAULT_PERMISSIONS: map<string, string> := map[
    "permit-X11-forwarding" := "",
    "permit-agent-forwarding" := "",
    "permit-port-forwarding" := "",
    "permit-pty" := "",
    "permit-user-rc" := ""]

  /** The extensions a certificate gets where none is configured, all without a value. */
  lemma DefaultExtensions(name: string)
    ensures name in DEFAULT_PERMISSIONS
            <==> name in ["permit-X11-forwarding", "permit-agent-forwarding", "permit-port-forwarding", "permit-pty",
                          "permit-user-rc"]
    ensures name in DEFAULT_PERMISSIONS ==> DEFAULT_PERMISSIONS[name] == ""
  {
  }

  /** A Go map: certificates hold references to these and may share them. */
  class StringMap {
    var entries: map<string, string>

    constructor ()
      ensures entries == map[]
    {
      entries := map[];
    }
  }

  class Certificate {
    var keyId: string
    var validAfter: nat
    var validBefore: nat
    var principals: seq<string>
    var criticalOptions: StringMap
    var extensions: StringMap

    /** The value of the certificate; `raw` is its encoded form. */
    ghost function Value(raw: string): Cert
      reads this
    {
      Cert(keyId, principals, validAfter, validBefore, raw)
    }

    constructor (keyId: string, validAfter: nat, validBefore: nat, principals: seq<string>)
      ensures Value("") == Cert(keyId, principals, validAfter, validBefore, "")
      ensures fresh(criticalOptions) && fresh(extensions)
    {
      this.keyId, this.validAfter, this.validBefore := keyId, validAfter, validBefore;
      this.principals := principals;
      criticalOptions := new StringMap();
      extensions := new StringMap();
    }
  }

  class SignRequest {
    const key: string
    const message: string
    var validUntil: Time

    constructor (key: string, message: string, validUntil: Time)
      ensures this.key == key && this.message == message && this.validUntil == validUntil
    {
      this.key, this.message, this.validUntil := key, message, validUntil;
    }
  }

  /** The revocation list before encoding: the CA it speaks for and the key ids it revokes. */
  datatype RevocationList = RevocationList(ca: string, ids: seq<string>)

  class KeySigner {
    const ca: string
    const validity: int
    const principals: seq<string>
    const permissions: seq<string>
    /** The package-level default map, shared by all certificates without extensions of their own. */
    const defaults: StringMap

    constructor (ca: string, validity: int, principals: seq<string>, permissions: seq<string>, defaults: StringMap)
      requires defaults.entries == DEFAULT_PERMISSIONS
      ensures Valid() && this.defaults == defaults && this.ca == ca && this.validity == validity
      ensures this.principals == principals && this.permissions == permissions
    {
      this.ca, this.validity, this.principals := ca, validity, principals;
      this.permissions, this.defaults := permissions, defaults;
    }

    /** The shared default map has its original contents. */
    ghost predicate Valid()
      reads defaults
    {
      defaults.entries == DEFAULT_PERMISSIONS
    }

    /** The folded permissions, with the shared default map exactly when they hold no extension. */
    ghost predicate HasPermissions(cert: Certificate)
      reads cert, cert.criticalOptions, cert.extensions
    {
      && cert.criticalOptions.entries == Fold(permissions).options
      && (if Fold(permissions).extensions == map[] then cert.extensions == defaults
          else cert.extensions != defaults && cert.extensions.entries == Fold(permissions).extensions)
    }

    method SetPermissions(cert: Certificate)
      requires Valid()
      modifies cert`criticalOptions, cert`extensions
      ensures Valid() && HasPermissions(cert)
      ensures fresh(cert.criticalOptions) && (cert.extensions == defaults || fresh(cert.extensions))
      ensures cert.criticalOptions != cert.extensions
    {
      var options := new StringMap();
      var extensions := new StringMap();
      cert.criticalOptions, cert.extensions := options, extensions;
      for i := 0 to |permissions|
        invariant cert.criticalOptions == options && cert.extensions == extensions
        invariant Permissions(options.entries, extensions.entries) == Fold(permissions[..i])
        invariant defaults.entries == DEFAULT_PERMISSIONS
      {
        var perm := permissions[i];
        assert permissions[..i + 1][..i] == permissions[..i];
        if IsOption(perm) {
          cert.criticalOptions.entries := cert.criticalOptions.entries[OptionName(perm) := OptionValue(perm)];
        } else {
          cert.extensions.entries := cert.extensions.entries[perm := ""];
        }
      }
      assert permissions[..|permissions|] == permissions;
      if |cert.extensions.entries| == 0 {
        cert.extensions := defaults;
      }
    }

    /**
     * `keyParses` and `signs` say whether the two calls into the SSH library succeed; `now` gives the clock readings.
     */
    method SignUserKey(req: SignRequest, username: string, keyParses: bool, signs: bool, now: nat -> Time)
      returns (r: Result<Certificate>)
      requires Valid()
      modifies req`validUntil
      ensures Valid()
      ensures r.Ok? <==> keyParses && signs
      ensures req.validUntil == if keyParses then Clamp(old(req.validUntil), now(0) + validity) else old(req.validUntil)
      ensures r.Ok? ==>
                && fresh(r.value) && HasPermissions(r.value)
                && r.value.Value("") == Stamp(username, req.validUntil, principals, now(1), now(2), "")
    {
      if !keyParses {
        return Err;
      }
      var expires := now(0) + validity;
      if req.validUntil > expires {
        req.validUntil := expires;
      }
      var cert := new Certificate(
        KeyId.KeyId(username, Unix(now(1))),
        ToUint64(Unix(now(2) - BACKDATE)),
        ToUint64(Unix(req.validUntil)),
        [username]);
      cert.principals := cert.principals + principals;
      SetPermissions(cert);
      if !signs {
        return Err;
      }
      return Ok(cert);
    }

    method GenerateRevocationList(certs: seq<Record>) returns (list: RevocationList)
      ensures list.ca == ca && |list.ids| == |certs|
      ensures forall i :: 0 <= i < |certs| ==> list.ids[i] == certs[i].keyId
    {
      var ids := [];
      for i := 0 to |certs|
        invariant |ids| == i && forall j :: 0 <= j < i ==> ids[j] == certs[j].keyId
      {
        ids := ids + [certs[i].keyId];
      }
      list := RevocationList(ca, ids);
    }
  }
}
