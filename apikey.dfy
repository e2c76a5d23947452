/** The API-key gate in front of every route: the `X-API-KEY` header is compared with the
    configured admin and installer keys, and the route's list of roles decides whether the
    request proceeds. A key that is not configured is the empty string and grants nothing. */
module ApiKey {
  import opened Wrappers
  import opened Types

  /** The gate's verdict: 401 without a key, 403 for an unknown or insufficient key. */
  datatype Gate = Unauthorized | Forbidden | Proceed(role: ApiRole)
  {
    function Status(): nat
    {
      match this
      case Unauthorized => 401
      case Forbidden => 403
      case Proceed(_) => 200
    }

    function Error(): string
    {
      match this
      case Unauthorized => "API key required"
      case Forbidden => "Invalid or insufficient API key"
      case Proceed(_) => ""
    }
  }

  /** The role a presented key carries; the admin key is compared first. */
  function ResolveRole(apiKey: string, adminKey: string, installerKey: string): (r: Option<ApiRole>)
    ensures r == Some(Admin) <==> apiKey == adminKey && adminKey != ""
    ensures r == Some(Installer) <==> apiKey == installerKey && installerKey != "" && !(apiKey == adminKey && adminKey != "")
    ensures r == None <==> (apiKey != adminKey || adminKey == "") && (apiKey != installerKey || installerKey == "")
  {
    if apiKey == adminKey && adminKey != "" then Some(Admin)
    else if apiKey == installerKey && installerKey != "" then Some(Installer)
    else None
  }

  /** `requireApiKey(allowedRoles)` applied to the header value (`None` when absent). */
  function RequireApiKey(allowed: seq<ApiRole>, header: Option<string>, adminKey: string, installerKey: string): (g: Gate)
    ensures g == Unauthorized <==> !Truthy(header)
    ensures g.Proceed? <==>
      Truthy(header) && ResolveRole(header.value, adminKey, installerKey).Some?
      && ResolveRole(header.value, adminKey, installerKey).value in allowed
    ensures g.Proceed? ==> g.role in allowed && Some(g.role) == ResolveRole(header.value, adminKey, installerKey)
  {
    if !Truthy(header) then Unauthorized
    else
      match ResolveRole(header.value, adminKey, installerKey)
      case None => Forbidden
      case Some(role) => if role in allowed then Proceed(role) else Forbidden
  }

  /** `requireAdmin` */
  function RequireAdmin(header: Option<string>, adminKey: string, installerKey: string): Gate
  {
    RequireApiKey([Admin], header, adminKey, installerKey)
  }

  /** `requireInstaller`: installers and admins. */
  function RequireInstaller(header: Option<string>, adminKey: string, installerKey: string): Gate
  {
    RequireApiKey([Installer, Admin], header, adminKey, installerKey)
  }

  /** The admin routes open exactly for the configured, non-empty admin key. */
  lemma AdminGateIff(header: Option<string>, adminKey: string, installerKey: string)
    ensures RequireAdmin(header, adminKey, installerKey) == Proceed(Admin) <==>
      header == Some(adminKey) && adminKey != ""
    ensures RequireAdmin(header, adminKey, installerKey) != Proceed(Installer)
  {
  }

  /** The authorization route opens for either configured, non-empty key. */
  lemma InstallerGateIff(header: Option<string>, adminKey: string, installerKey: string)
    ensures RequireInstaller(header, adminKey, installerKey).Proceed? <==>
      (header == Some(adminKey) && adminKey != "") || (header == Some(installerKey) && installerKey != "")
  {
  }

  /** With neither key configured every request is refused. */
  lemma UnconfiguredRefusesAll(allowed: seq<ApiRole>, header: Option<string>)
    ensures !RequireApiKey(allowed, header, "", "").Proceed?
  {
  }

  /** An installer key that differs from the admin key is refused by the admin routes with
      403, not 401. */
  lemma InstallerKeyOnAdminRoute(adminKey: string, installerKey: string)
    requires installerKey != "" && installerKey != adminKey
    ensures RequireAdmin(Some(installerKey), adminKey, installerKey) == Forbidden
  {
  }

  /** When both keys are configured to the same text, the key acts as admin. */
  lemma SharedKeyIsAdmin(key: string)
    requires key != ""
    ensures ResolveRole(key, key, key) == Some(Admin)
  {
  }

  /** Allowing more roles never closes the gate. */
  lemma {:induction false} MoreRolesOnlyOpen(allowed: seq<ApiRole>, more: seq<ApiRole>, header: Option<string>, adminKey: string, installerKey: string)
    requires forall r :: r in allowed ==> r in more
    ensures RequireApiKey(allowed, header, adminKey, installerKey).Proceed? ==>
      RequireApiKey(more, header, adminKey, installerKey) == RequireApiKey(allowed, header, adminKey, installerKey)
  {
  }
}
