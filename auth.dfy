/** The authorization check `POST /v1/auth/check`: a pure decision over the stored license and
    its allow-list, and the handler that queries the tables, writes one audit row and replies. */
module Auth {
  import opened Wrappers
  import opened Types
  import opened IpMatch
  import opened Db
  import opened Faults

  /** Every way the check can end once the request is well formed. */
  datatype Decision = NotFound | Inactive | Expired | NoAllowedIps | Denied | Allowed
  {
    /** The `result` written to the audit row. */
    function Code(): string
    {
      match this
      case NotFound => "license-not-found"
      case Inactive => "license-inactive"
      case Expired => "license-expired"
      case NoAllowedIps => "no-allowed-ips"
      case Denied => "denied"
      case Allowed => "allowed"
    }

    function Message(): string
    {
      match this
      case NotFound => "License not found"
      case Inactive => "License is inactive"
      case Expired => "License has expired"
      case NoAllowedIps => "No IPs configured for this license"
      case Denied => "IP address not authorized for this license"
      case Allowed => "OK"
    }

    function Status(): nat
    {
      if this == Allowed then 200 else 403
    }
  }

  datatype Reply = Reply(status: nat, body: AuthCheckResponse)

  const MissingFields: string := "Missing required fields: license_key, public_ip"
  const InternalError: string := "Internal server error"

  /** `rows.some(row => ipMatches(publicIp, row.ip_cidr))` */
  function AnyMatch(publicIp: string, rows: seq<AllowedIp>): (r: bool)
    ensures r <==> exists i :: 0 <= i < |rows| && IpMatches(publicIp, rows[i].ipCidr)
  {
    if rows == [] then false
    else
      assert forall i :: 1 <= i < |rows| ==> rows[i] == rows[1..][i - 1];
      IpMatches(publicIp, rows[0].ipCidr) || AnyMatch(publicIp, rows[1..])
  }

  /** An expiry is passed when it lies strictly before `now`. */
  predicate IsExpired(l: License, now: int)
  {
    l.expiresAt.Some? && l.expiresAt.value < now
  }

  /** The verdict on the license alone: `Inactive` is checked before `Expired`. */
  function Standing(l: License, now: int): (r: Option<Decision>)
    ensures r == None <==> l.active && !IsExpired(l, now)
    ensures r.Some? ==> r.value == Inactive || r.value == Expired
  {
    if !l.active then Some(Inactive)
    else if IsExpired(l, now) then Some(Expired)
    else None
  }

  /** The decision for `publicIp`, given the rows found for the key (the first one is used) and
      the allow-list rows of that license. */
  function Decide(found: seq<License>, rows: seq<AllowedIp>, now: int, publicIp: string): Decision
  {
    if found == [] then NotFound
    else match Standing(found[0], now)
      case Some(d) => d
      case None =>
        if rows == [] then NoAllowedIps
        else if AnyMatch(publicIp, rows) then Allowed
        else Denied
  }

  /** How many lookups precede the audit insert: one, or two when the license itself passes
      and its allow-list is read. */
  function Lookups(found: seq<License>, now: int): (r: nat)
    ensures r == 2 <==> found != [] && found[0].active && !IsExpired(found[0], now)
    ensures r == 1 || r == 2
  {
    if found != [] && Standing(found[0], now).None? then 2 else 1
  }

  /** `machine_id || null` */
  function MachineOf(req: AuthCheckRequest): (r: Option<string>)
    ensures r.Some? <==> Truthy(req.machineId)
    ensures r.Some? ==> r == req.machineId
  {
    if Truthy(req.machineId) then req.machineId else None
  }

  // ---------------------------------------------------------------- properties of the decision

  /** A request is allowed exactly when a license with the key exists, is active, has not
      expired and one of its allow-list entries matches the address. */
  lemma AllowedIff(found: seq<License>, rows: seq<AllowedIp>, now: int, publicIp: string)
    ensures Decide(found, rows, now, publicIp) == Allowed <==>
      found != [] && found[0].active && !IsExpired(found[0], now)
      && exists i :: 0 <= i < |rows| && IpMatches(publicIp, rows[i].ipCidr)
  {
  }

  /** An inactive license is reported as inactive whether or not it has expired. */
  lemma InactiveBeforeExpired(found: seq<License>, rows: seq<AllowedIp>, now: int, publicIp: string)
    requires found != [] && !found[0].active
    ensures Decide(found, rows, now, publicIp) == Inactive
  {
  }

  /** A license without expiry never expires: the decision does not depend on the time. */
  lemma NoExpiryIsTimeless(found: seq<License>, rows: seq<AllowedIp>, now: int, later: int, publicIp: string)
    requires found != [] && found[0].expiresAt == None
    ensures Decide(found, rows, now, publicIp) == Decide(found, rows, later, publicIp)
  {
  }

  /** The expiry instant itself is still valid; one millisecond later the license has expired. */
  lemma ExpiryIsStrict(found: seq<License>, rows: seq<AllowedIp>, publicIp: string)
    requires found != [] && found[0].active && found[0].expiresAt.Some?
    ensures Decide(found, rows, found[0].expiresAt.value, publicIp) != Expired
    ensures Decide(found, rows, found[0].expiresAt.value + 1, publicIp) == Expired
  {
  }

  /** Time only takes access away: allowed now means allowed at every earlier instant, and
      expired now means expired at every later one. */
  lemma {:induction false} TimeOnlyRevokes(found: seq<License>, rows: seq<AllowedIp>, earlier: int, later: int, publicIp: string)
    requires earlier <= later
    ensures Decide(found, rows, later, publicIp) == Allowed ==> Decide(found, rows, earlier, publicIp) == Allowed
    ensures Decide(found, rows, earlier, publicIp) == Expired ==> Decide(found, rows, later, publicIp) == Expired
  {
  }

  /** Adding allow-list entries never takes access away. */
  lemma {:induction false} MoreEntriesOnlyGrant(found: seq<License>, rows: seq<AllowedIp>, more: seq<AllowedIp>, now: int, publicIp: string)
    requires forall r :: r in rows ==> r in more
    ensures Decide(found, rows, now, publicIp) == Allowed ==> Decide(found, more, now, publicIp) == Allowed
  {
    if Decide(found, rows, now, publicIp) == Allowed {
      var i :| 0 <= i < |rows| && IpMatches(publicIp, rows[i].ipCidr);
      assert rows[i] in more;
      var j :| 0 <= j < |more| && more[j] == rows[i];
      assert IpMatches(publicIp, more[j].ipCidr);
    }
  }

  /** Each outcome has its own audit code, so the audit trail tells them apart. */
  lemma CodeInjective(d: Decision, e: Decision)
    requires d.Code() == e.Code()
    ensures d == e
  {
  }

  /** Status 200 is returned for `Allowed` and for nothing else, and its reply says allowed. */
  lemma StatusIffAllowed(d: Decision)
    ensures d.Status() == 200 <==> d == Allowed
    ensures d.Status() == 200 || d.Status() == 403
  {
  }

  // ---------------------------------------------------------------- the handler

  /** The decision the handler reaches on tables `t` for a well-formed request. */
  function Verdict(t: Tables, req: AuthCheckRequest, now: int): Decision
    requires Truthy(req.licenseKey) && Truthy(req.publicIp)
  {
    var found := LicensesWithKey(t.licenses, req.licenseKey.value);
    var rows := if Lookups(found, now) == 2 then IpsOfLicense(t.allowedIps, found[0].id) else [];
    Decide(found, rows, now, req.publicIp.value)
  }

  /** The reply that carries a decision. */
  function ReplyOf(d: Decision): (r: Reply)
    ensures r.body.allowed <==> r.status == 200
  {
    Reply(d.Status(), AuthCheckResponse(d == Allowed, d.Message()))
  }

  /** On the stored tables: access is granted exactly when a license row carries the key, the
      first such row is active and unexpired, and an allow-list row of that license matches. */
  lemma VerdictAllowedIff(t: Tables, req: AuthCheckRequest, now: int)
    requires Truthy(req.licenseKey) && Truthy(req.publicIp)
    ensures Verdict(t, req, now) == Allowed <==>
      var found := LicensesWithKey(t.licenses, req.licenseKey.value);
      found != [] && found[0].active && !IsExpired(found[0], now)
      && exists a :: a in t.allowedIps && a.licenseId == found[0].id && IpMatches(req.publicIp.value, a.ipCidr)
  {
    var found := LicensesWithKey(t.licenses, req.licenseKey.value);
    if found != [] && found[0].active && !IsExpired(found[0], now) {
      var rows := IpsOfLicense(t.allowedIps, found[0].id);
      if exists a :: a in t.allowedIps && a.licenseId == found[0].id && IpMatches(req.publicIp.value, a.ipCidr) {
        var a :| a in t.allowedIps && a.licenseId == found[0].id && IpMatches(req.publicIp.value, a.ipCidr);
        assert a in rows;
        var k :| 0 <= k < |rows| && rows[k] == a;
        assert AnyMatch(req.publicIp.value, rows);
      }
      if AnyMatch(req.publicIp.value, rows) {
        var k :| 0 <= k < |rows| && IpMatches(req.publicIp.value, rows[k].ipCidr);
        assert rows[k] in rows;
      }
    }
  }

  /** The lookups of the handler for a well-formed request: the license by key, then its
      allow-list when the license itself passes. `None` when one of them failed; the tables
      are only read. */
  method Lookup(db: Database, req: AuthCheckRequest, now: int) returns (d: Option<Decision>)
    modifies db
    requires Truthy(req.licenseKey) && Truthy(req.publicIp)
    ensures db.State() == old(db.State())
    ensures var n := Lookups(LicensesWithKey(old(db.licenses), req.licenseKey.value), now);
      var failed := FirstFault(old(db.faults), n);
      (failed < n ==> d.None? && db.faults == Drop(old(db.faults), failed + 1))
      && (failed == n ==> d == Some(Verdict(old(db.State()), req, now)) && db.faults == Drop(old(db.faults), n))
  {
    var key := req.licenseKey.value;
    var ip := req.publicIp.value;
    ghost var f0 := db.faults;
    var licenseResult := db.FindLicenseByKey(key);
    if licenseResult.Fault? {
      return None;
    }
    var licenses := licenseResult.value;
    if licenses == [] {
      return Some(NotFound);
    } else if !licenses[0].active {
      return Some(Inactive);
    } else if licenses[0].expiresAt.Some? && licenses[0].expiresAt.value < now {
      return Some(Expired);
    }
    DropShifts(f0, 1, 0);
    DropDrop(f0, 1, 1);
    var ipsResult := db.FindIpsOfLicense(licenses[0].id);
    if ipsResult.Fault? {
      return None;
    }
    var rows := ipsResult.value;
    if rows == [] {
      return Some(NoAllowedIps);
    }
    var ipAllowed := AnyMatch(ip, rows);
    d := Some(if ipAllowed then Allowed else Denied);
  }

  /** The handler. A request lacking the key or the address is refused with 400 before any
      statement runs. Otherwise the license lookup, the allow-list lookup when the license
      passes, and the audit insert run in order; the first failing statement ends the request
      with 500 and nothing after it runs. When none fails, exactly one audit row is appended,
      carrying the code of the decision the reply reports. */
  method Check(db: Database, req: AuthCheckRequest, now: int) returns (reply: Reply)
    modifies db
    requires db.Valid()
    ensures db.Valid()
    ensures db.licenses == old(db.licenses) && db.allowedIps == old(db.allowedIps)
    ensures db.nextLicenseId == old(db.nextLicenseId) && db.nextIpId == old(db.nextIpId)
    ensures !(Truthy(req.licenseKey) && Truthy(req.publicIp)) ==>
      reply == Reply(400, AuthCheckResponse(false, MissingFields))
      && db.State() == old(db.State()) && db.faults == old(db.faults)
    ensures Truthy(req.licenseKey) && Truthy(req.publicIp) ==>
      var n := Lookups(LicensesWithKey(old(db.licenses), req.licenseKey.value), now) + 1;
      var failed := FirstFault(old(db.faults), n);
      var d := Verdict(old(db.State()), req, now);
      (failed < n ==>
         reply == Reply(500, AuthCheckResponse(false, InternalError))
         && db.authLogs == old(db.authLogs) && db.nextLogId == old(db.nextLogId)
         && db.faults == Drop(old(db.faults), failed + 1))
      && (failed == n ==>
         reply == ReplyOf(d)
         && db.authLogs == old(db.authLogs) + [AuthLog(old(db.nextLogId), req.licenseKey, req.publicIp,
                                                      MachineOf(req), d.Code(), req, now)]
         && db.nextLogId == old(db.nextLogId) + 1
         && db.faults == Drop(old(db.faults), n))
  {
    if !Truthy(req.licenseKey) || !Truthy(req.publicIp) {
      reply := Reply(400, AuthCheckResponse(false, MissingFields));
      return;
    }
    ghost var f0 := db.faults;
    ghost var n := Lookups(LicensesWithKey(db.licenses, req.licenseKey.value), now);
    var d := Lookup(db, req, now);
    if d.None? {
      reply := Reply(500, AuthCheckResponse(false, InternalError));
      return;
    }
    DropShifts(f0, n, 0);
    DropDrop(f0, n, 1);
    var logged := db.InsertAuthLog(req.licenseKey, req.publicIp, MachineOf(req), d.value.Code(), req, now);
    if logged.Fault? {
      reply := Reply(500, AuthCheckResponse(false, InternalError));
      return;
    }
    reply := ReplyOf(d.value);
  }


  /** A 200 reply is only ever given together with an audit row saying `allowed`. */
  lemma GrantIsAudited(d: Decision)
    ensures ReplyOf(d).status == 200 <==> d.Code() == "allowed"
  {
    StatusIffAllowed(d);
    if d.Code() == "allowed" {
      CodeInjective(d, Allowed);
    }
  }
}
