/** The storage the route handlers query: the `licenses`, `allowed_ips` and `auth_logs` tables
    with their key constraints, and the handful of statements the handlers issue. Whether a
    statement fails for a reason outside the model (a lost connection, a timeout) is read off
    a fault script: one entry per statement, in order; an exhausted script means success. */
module Db {
  import opened Wrappers
  import opened Types
  import opened Faults
  import opened Seqs

  /** PostgreSQL's `unique_violation` SQLSTATE. */
  const UniqueViolation: string := "23505"

  /** The code reported for any other failure. */
  const QueryFailed: string := "XX000"

  /** What a statement returns: its rows, or the error it raised. */
  datatype Answer<T> = Rows(value: T) | Fault(code: string)

  function LicensesWithKey(ls: seq<License>, key: string): seq<License>
  {
    Filter(ls, (l: License) => l.licenseKey == key)
  }

  function LicensesWithId(ls: seq<License>, id: nat): seq<License>
  {
    Filter(ls, (l: License) => l.id == id)
  }

  function IpsOfLicense(ips: seq<AllowedIp>, licenseId: nat): seq<AllowedIp>
  {
    Filter(ips, (a: AllowedIp) => a.licenseId == licenseId)
  }

  function IpsWithId(ips: seq<AllowedIp>, id: nat, licenseId: nat): seq<AllowedIp>
  {
    Filter(ips, (a: AllowedIp) => a.id == id && a.licenseId == licenseId)
  }

  /** Whether the table already holds the pair (license, ip_cidr). */
  predicate HasPair(ips: seq<AllowedIp>, licenseId: nat, ipCidr: string)
  {
    exists i :: 0 <= i < |ips| && ips[i].licenseId == licenseId && ips[i].ipCidr == ipCidr
  }

  predicate HasKey(ls: seq<License>, key: string)
  {
    exists i :: 0 <= i < |ls| && ls[i].licenseKey == key
  }

  /** A license row with the fields of an update applied. */
  datatype LicenseChanges = LicenseChanges(
    name: Option<Option<string>>,
    active: Option<bool>,
    expiresAt: Option<Option<int>>)

  function Apply(l: License, c: LicenseChanges): (r: License)
    ensures r.id == l.id && r.licenseKey == l.licenseKey && r.createdAt == l.createdAt
    ensures r.name == c.name.GetOr(l.name)
    ensures r.active == c.active.GetOr(l.active)
    ensures r.expiresAt == c.expiresAt.GetOr(l.expiresAt)
  {
    l.(name := c.name.GetOr(l.name),
       active := c.active.GetOr(l.active),
       expiresAt := c.expiresAt.GetOr(l.expiresAt))
  }

  function UpdateWhere(ls: seq<License>, id: nat, c: LicenseChanges): (r: seq<License>)
    ensures |r| == |ls|
    ensures forall i :: 0 <= i < |ls| ==> r[i] == if ls[i].id == id then Apply(ls[i], c) else ls[i]
  {
    if ls == [] then []
    else [if ls[0].id == id then Apply(ls[0], c) else ls[0]] + UpdateWhere(ls[1..], id, c)
  }

  /** The whole table state at one moment, for stating what a statement leaves alone. */
  datatype Tables = Tables(
    licenses: seq<License>,
    allowedIps: seq<AllowedIp>,
    authLogs: seq<AuthLog>,
    nextLicenseId: nat,
    nextIpId: nat,
    nextLogId: nat)

  class Database {
    var licenses: seq<License>
    var allowedIps: seq<AllowedIp>
    var authLogs: seq<AuthLog>
    var nextLicenseId: nat
    var nextIpId: nat
    var nextLogId: nat
    var faults: seq<bool>

    function State(): Tables
      reads this
    {
      Tables(licenses, allowedIps, authLogs, nextLicenseId, nextIpId, nextLogId)
    }

    /** The table constraints: serial primary keys, a unique license key and a unique
        (license_id, ip_cidr) pair. */
    ghost predicate Valid()
      reads this
    {
      (forall l :: l in licenses ==> l.id < nextLicenseId)
      && DistinctBy(licenses, (l: License) => l.id)
      && DistinctBy(licenses, (l: License) => l.licenseKey)
      && (forall a :: a in allowedIps ==> a.id < nextIpId)
      && DistinctBy(allowedIps, (a: AllowedIp) => a.id)
      && DistinctBy(allowedIps, (a: AllowedIp) => (a.licenseId, a.ipCidr))
      && (forall g :: g in authLogs ==> g.id < nextLogId)
      && DistinctBy(authLogs, (g: AuthLog) => g.id)
    }

    constructor (faults: seq<bool>)
      ensures State() == Tables([], [], [], 1, 1, 1) && this.faults == faults
      ensures Valid()
    {
      licenses, allowedIps, authLogs := [], [], [];
      nextLicenseId, nextIpId, nextLogId := 1, 1, 1;
      this.faults := faults;
    }

    /** Runs one statement against the fault script: `ok` unless the script says it fails. */
    method Step() returns (ok: bool)
      modifies this
      ensures ok == !FailsAt(old(faults), 0)
      ensures faults == Drop(old(faults), 1) && State() == old(State())
    {
      ok := !(faults != [] && faults[0]);
      faults := if faults == [] then [] else faults[1..];
    }

    /** `SELECT * FROM licenses WHERE license_key = $1` */
    method FindLicenseByKey(key: string) returns (r: Answer<seq<License>>)
      modifies this
      ensures r == if FailsAt(old(faults), 0) then Fault(QueryFailed) else Rows(LicensesWithKey(licenses, key))
      ensures faults == Drop(old(faults), 1) && State() == old(State())
    {
      var ok := Step();
      r := if ok then Rows(LicensesWithKey(licenses, key)) else Fault(QueryFailed);
    }

    /** `SELECT * FROM licenses WHERE id = $1` */
    method FindLicenseById(id: nat) returns (r: Answer<seq<License>>)
      modifies this
      ensures r == if FailsAt(old(faults), 0) then Fault(QueryFailed) else Rows(LicensesWithId(licenses, id))
      ensures faults == Drop(old(faults), 1) && State() == old(State())
    {
      var ok := Step();
      r := if ok then Rows(LicensesWithId(licenses, id)) else Fault(QueryFailed);
    }

    /** `SELECT * FROM allowed_ips WHERE license_id = $1` */
    method FindIpsOfLicense(licenseId: nat) returns (r: Answer<seq<AllowedIp>>)
      modifies this
      ensures r == if FailsAt(old(faults), 0) then Fault(QueryFailed) else Rows(IpsOfLicense(allowedIps, licenseId))
      ensures faults == Drop(old(faults), 1) && State() == old(State())
    {
      var ok := Step();
      r := if ok then Rows(IpsOfLicense(allowedIps, licenseId)) else Fault(QueryFailed);
    }

    /** `SELECT * FROM allowed_ips WHERE id = $1 AND license_id = $2` */
    method FindIp(id: nat, licenseId: nat) returns (r: Answer<seq<AllowedIp>>)
      modifies this
      ensures r == if FailsAt(old(faults), 0) then Fault(QueryFailed) else Rows(IpsWithId(allowedIps, id, licenseId))
      ensures faults == Drop(old(faults), 1) && State() == old(State())
    {
      var ok := Step();
      r := if ok then Rows(IpsWithId(allowedIps, id, licenseId)) else Fault(QueryFailed);
    }

    /** `INSERT INTO auth_logs (...) VALUES (...)`: one appended row with the next id. */
    method InsertAuthLog(licenseKey: Option<string>, requestIp: Option<string>,
                         machineIdentifier: Option<string>, result: string,
                         rawRequest: AuthCheckRequest, now: int)
      returns (r: Answer<AuthLog>)
      modifies this
      requires Valid()
      ensures Valid()
      ensures faults == Drop(old(faults), 1)
      ensures licenses == old(licenses) && allowedIps == old(allowedIps)
      ensures nextLicenseId == old(nextLicenseId) && nextIpId == old(nextIpId)
      ensures FailsAt(old(faults), 0) ==> r == Fault(QueryFailed) && State() == old(State())
      ensures !FailsAt(old(faults), 0) ==>
        var row := AuthLog(old(nextLogId), licenseKey, requestIp, machineIdentifier, result, rawRequest, now);
        r == Rows(row) && authLogs == old(authLogs) + [row] && nextLogId == old(nextLogId) + 1
    {
      var ok := Step();
      if !ok {
        r := Fault(QueryFailed);
        return;
      }
      var row := AuthLog(nextLogId, licenseKey, requestIp, machineIdentifier, result, rawRequest, now);
      authLogs := authLogs + [row];
      nextLogId := nextLogId + 1;
      r := Rows(row);
    }

    /** `INSERT INTO allowed_ips (license_id, ip_cidr, note) VALUES (...) RETURNING *`,
        refused with `unique_violation` when the pair is already present. */
    method InsertAllowedIp(licenseId: nat, ipCidr: string, note: Option<string>, now: int)
      returns (r: Answer<AllowedIp>)
      modifies this
      requires Valid()
      ensures Valid()
      ensures faults == Drop(old(faults), 1)
      ensures licenses == old(licenses) && authLogs == old(authLogs)
      ensures nextLicenseId == old(nextLicenseId) && nextLogId == old(nextLogId)
      ensures FailsAt(old(faults), 0) ==> r == Fault(QueryFailed) && State() == old(State())
      ensures !FailsAt(old(faults), 0) && HasPair(old(allowedIps), licenseId, ipCidr) ==>
        r == Fault(UniqueViolation) && State() == old(State())
      ensures !FailsAt(old(faults), 0) && !HasPair(old(allowedIps), licenseId, ipCidr) ==>
        var row := AllowedIp(old(nextIpId), licenseId, ipCidr, note, now);
        r == Rows(row) && allowedIps == old(allowedIps) + [row] && nextIpId == old(nextIpId) + 1
    {
      var ok := Step();
      if !ok {
        r := Fault(QueryFailed);
        return;
      }
      if HasPair(allowedIps, licenseId, ipCidr) {
        r := Fault(UniqueViolation);
        return;
      }
      var row := AllowedIp(nextIpId, licenseId, ipCidr, note, now);
      allowedIps := allowedIps + [row];
      nextIpId := nextIpId + 1;
      r := Rows(row);
    }

    /** `DELETE FROM allowed_ips WHERE id = $1` */
    method DeleteIp(id: nat) returns (r: Answer<()>)
      modifies this
      requires Valid()
      ensures Valid()
      ensures faults == Drop(old(faults), 1)
      ensures licenses == old(licenses) && authLogs == old(authLogs)
      ensures nextLicenseId == old(nextLicenseId) && nextIpId == old(nextIpId) && nextLogId == old(nextLogId)
      ensures FailsAt(old(faults), 0) ==> r == Fault(QueryFailed) && allowedIps == old(allowedIps)
      ensures !FailsAt(old(faults), 0) ==>
        r == Rows(()) && allowedIps == Filter(old(allowedIps), (a: AllowedIp) => a.id != id)
    {
      var ok := Step();
      if !ok {
        r := Fault(QueryFailed);
        return;
      }
      var kept := Filter(allowedIps, (a: AllowedIp) => a.id != id);
      FilterDistinct(allowedIps, (a: AllowedIp) => a.id != id, (a: AllowedIp) => a.id);
      FilterDistinct(allowedIps, (a: AllowedIp) => a.id != id, (a: AllowedIp) => (a.licenseId, a.ipCidr));
      allowedIps := kept;
      r := Rows(());
    }

    /** `INSERT INTO licenses (name, license_key, expires_at) VALUES (...) RETURNING *`; a new
        license is active. Refused with `unique_violation` when the key is taken. */
    method InsertLicense(name: Option<string>, key: string, expiresAt: Option<int>, now: int)
      returns (r: Answer<License>)
      modifies this
      requires Valid()
      ensures Valid()
      ensures faults == Drop(old(faults), 1)
      ensures allowedIps == old(allowedIps) && authLogs == old(authLogs)
      ensures nextIpId == old(nextIpId) && nextLogId == old(nextLogId)
      ensures FailsAt(old(faults), 0) ==> r == Fault(QueryFailed) && State() == old(State())
      ensures !FailsAt(old(faults), 0) && HasKey(old(licenses), key) ==>
        r == Fault(UniqueViolation) && State() == old(State())
      ensures !FailsAt(old(faults), 0) && !HasKey(old(licenses), key) ==>
        var row := License(old(nextLicenseId), name, key, true, now, expiresAt);
        r == Rows(row) && licenses == old(licenses) + [row] && nextLicenseId == old(nextLicenseId) + 1
    {
      var ok := Step();
      if !ok {
        r := Fault(QueryFailed);
        return;
      }
      if HasKey(licenses, key) {
        r := Fault(UniqueViolation);
        return;
      }
      var row := License(nextLicenseId, name, key, true, now, expiresAt);
      licenses := licenses + [row];
      nextLicenseId := nextLicenseId + 1;
      r := Rows(row);
    }

    /** `UPDATE licenses SET ... WHERE id = $k RETURNING *` */
    method UpdateLicense(id: nat, c: LicenseChanges) returns (r: Answer<seq<License>>)
      modifies this
      requires Valid()
      ensures Valid()
      ensures faults == Drop(old(faults), 1)
      ensures allowedIps == old(allowedIps) && authLogs == old(authLogs)
      ensures nextLicenseId == old(nextLicenseId) && nextIpId == old(nextIpId) && nextLogId == old(nextLogId)
      ensures FailsAt(old(faults), 0) ==> r == Fault(QueryFailed) && licenses == old(licenses)
      ensures !FailsAt(old(faults), 0) ==>
        licenses == UpdateWhere(old(licenses), id, c)
        && r == Rows(LicensesWithId(licenses, id))
    {
      var ok := Step();
      if !ok {
        r := Fault(QueryFailed);
        return;
      }
      licenses := UpdateWhere(licenses, id, c);
      r := Rows(LicensesWithId(licenses, id));
    }

    /** `DELETE FROM licenses WHERE id = $1 RETURNING *` */
    method DeleteLicense(id: nat) returns (r: Answer<seq<License>>)
      modifies this
      requires Valid()
      ensures Valid()
      ensures faults == Drop(old(faults), 1)
      ensures allowedIps == old(allowedIps) && authLogs == old(authLogs)
      ensures nextLicenseId == old(nextLicenseId) && nextIpId == old(nextIpId) && nextLogId == old(nextLogId)
      ensures FailsAt(old(faults), 0) ==> r == Fault(QueryFailed) && licenses == old(licenses)
      ensures !FailsAt(old(faults), 0) ==>
        r == Rows(LicensesWithId(old(licenses), id))
        && licenses == Filter(old(licenses), (l: License) => l.id != id)
    {
      var ok := Step();
      if !ok {
        r := Fault(QueryFailed);
        return;
      }
      r := Rows(LicensesWithId(licenses, id));
      FilterDistinct(licenses, (l: License) => l.id != id, (l: License) => l.id);
      FilterDistinct(licenses, (l: License) => l.id != id, (l: License) => l.licenseKey);
      licenses := Filter(licenses, (l: License) => l.id != id);
    }
  }

}
