/** The allow-list routes `POST /v1/licenses/:licenseId/ips` and
    `DELETE /v1/licenses/:licenseId/ips/:ipId`: validation first, then the table change, then a
    best-effort mirror onto the router whose outcome never changes the reply. Path ids arrive
    already read as numbers. */
module IpsRoutes {
  import opened Wrappers
  import opened Types
  import opened Faults
  import opened Seqs
  import opened IpMatch
  import opened Db
  import MikroTik

  datatype Body =
    | Row(row: AllowedIp)
    | Error(error: string)
    | Message(message: string)

  datatype Response = Response(status: nat, body: Body)

  const IpRequired: string := "ip_cidr is required"
  const InvalidIp: string := "Invalid IP address or CIDR format"
  const LicenseNotFound: string := "License not found"
  const AlreadyAdded: string := "IP already added to this license"
  const AddFailed: string := "Failed to add IP"
  const IpNotFound: string := "IP not found"
  const Removed: string := "IP removed successfully"
  const RemoveFailed: string := "Failed to remove IP"

  /** `note || null` */
  function NoteOf(req: AddIpRequest): (r: Option<string>)
    ensures r.Some? <==> Truthy(req.note)
    ensures r.Some? ==> r == req.note
  {
    if Truthy(req.note) then req.note else None
  }

  /** The reply to an add, read off the tables and the fault script alone: the router plays no
      part in it. */
  function AddOutcome(t: Tables, faults: seq<bool>, licenseId: nat, req: AddIpRequest, now: int): (r: Response)
    ensures r.status in {201, 400, 404, 409, 500}
    ensures r.status == 400 <==> !Truthy(req.ipCidr) || !IsValidIpOrCidr(req.ipCidr.value)
    ensures r.status == 404 <==>
      Truthy(req.ipCidr) && IsValidIpOrCidr(req.ipCidr.value)
      && !FailsAt(faults, 0) && LicensesWithId(t.licenses, licenseId) == []
    ensures r.status == 201 ==>
      r.body == Row(AllowedIp(t.nextIpId, licenseId, req.ipCidr.value, NoteOf(req), now))
  {
    if !Truthy(req.ipCidr) then Response(400, Error(IpRequired))
    else if !IsValidIpOrCidr(req.ipCidr.value) then Response(400, Error(InvalidIp))
    else if FailsAt(faults, 0) then Response(500, Error(AddFailed))
    else if LicensesWithId(t.licenses, licenseId) == [] then Response(404, Error(LicenseNotFound))
    else if FailsAt(faults, 1) then Response(500, Error(AddFailed))
    else if HasPair(t.allowedIps, licenseId, req.ipCidr.value) then Response(409, Error(AlreadyAdded))
    else Response(201, Row(AllowedIp(t.nextIpId, licenseId, req.ipCidr.value, NoteOf(req), now)))
  }

  /** The add handler. Nothing is read or written before both checks on `ip_cidr` pass; a row is
      inserted exactly when the reply is 201; the router is touched only after the insert, and
      its failure is swallowed. */
  method AddIp(db: Database, sync: MikroTik.Service, device: MikroTik.Router,
               licenseId: nat, req: AddIpRequest, now: int) returns (resp: Response)
    modifies db, sync, device
    requires db.Valid() && device.Valid()
    ensures db.Valid() && device.Valid()
    ensures resp == AddOutcome(old(db.State()), old(db.faults), licenseId, req, now)
    ensures db.licenses == old(db.licenses) && db.authLogs == old(db.authLogs)
    ensures db.nextLicenseId == old(db.nextLicenseId) && db.nextLogId == old(db.nextLogId)
    ensures resp.status == 201 ==>
      db.allowedIps == old(db.allowedIps) + [resp.body.row] && db.nextIpId == old(db.nextIpId) + 1
    ensures resp.status != 201 ==> db.allowedIps == old(db.allowedIps) && db.nextIpId == old(db.nextIpId)
    ensures resp.status == 400 ==> db.faults == old(db.faults)
    ensures resp.status != 201 ==>
      device.entries == old(device.entries) && device.natRules == old(device.natRules)
      && device.openCount == old(device.openCount) && device.closeCount == old(device.closeCount)
    ensures sync.config == old(sync.config)
    ensures device.closeCount - old(device.closeCount) == device.openCount - old(device.openCount) <= 1
    ensures resp.status == 201 && old(sync.Enabled()) ==>
      device.entries == old(device.entries)
      || device.entries == old(device.entries)
           + [MikroTik.Entry(old(device.nextId), sync.config.value.addressList, req.ipCidr.value, MikroTik.Tag(licenseId))]
  {
    if !Truthy(req.ipCidr) {
      return Response(400, Error(IpRequired));
    }
    var ipCidr := req.ipCidr.value;
    if !IsValidIpOrCidr(ipCidr) {
      return Response(400, Error(InvalidIp));
    }
    ghost var f0 := db.faults;
    var licenseResult := db.FindLicenseById(licenseId);
    if licenseResult.Fault? {
      return Response(500, Error(AddFailed));
    }
    if licenseResult.value == [] {
      return Response(404, Error(LicenseNotFound));
    }
    DropShifts(f0, 1, 0);
    var result := db.InsertAllowedIp(licenseId, ipCidr, NoteOf(req), now);
    if result.Fault? {
      if result.code == UniqueViolation {
        return Response(409, Error(AlreadyAdded));
      }
      return Response(500, Error(AddFailed));
    }
    var newIp := result.value;
    var synced := sync.AddIp(device, ipCidr, licenseId);
    resp := Response(201, Row(newIp));
  }

  /** The reply to a delete, read off the tables and the fault script alone. */
  function RemoveOutcome(t: Tables, faults: seq<bool>, licenseId: nat, ipId: nat): (r: Response)
    ensures r.status in {200, 404, 500}
    ensures r.status == 404 <==> !FailsAt(faults, 0) && IpsWithId(t.allowedIps, ipId, licenseId) == []
  {
    if FailsAt(faults, 0) then Response(500, Error(RemoveFailed))
    else if IpsWithId(t.allowedIps, ipId, licenseId) == [] then Response(404, Error(IpNotFound))
    else if FailsAt(faults, 1) then Response(500, Error(RemoveFailed))
    else Response(200, Message(Removed))
  }

  /** The delete handler. A row is deleted exactly when the reply is 200, and only a row that
      belongs to the license; the router is asked to drop the stored address afterwards, and its
      failure is swallowed. */
  method RemoveIp(db: Database, sync: MikroTik.Service, device: MikroTik.Router,
                  licenseId: nat, ipId: nat) returns (resp: Response)
    modifies db, sync, device
    requires db.Valid() && device.Valid()
    ensures db.Valid() && device.Valid()
    ensures resp == RemoveOutcome(old(db.State()), old(db.faults), licenseId, ipId)
    ensures db.licenses == old(db.licenses) && db.authLogs == old(db.authLogs)
    ensures db.nextLicenseId == old(db.nextLicenseId) && db.nextIpId == old(db.nextIpId) && db.nextLogId == old(db.nextLogId)
    ensures resp.status == 200 ==>
      db.allowedIps == Filter(old(db.allowedIps), (a: AllowedIp) => a.id != ipId)
      && IpsWithId(old(db.allowedIps), ipId, licenseId) != []
    ensures resp.status != 200 ==> db.allowedIps == old(db.allowedIps)
    ensures resp.status != 200 ==>
      device.entries == old(device.entries) && device.openCount == old(device.openCount)
      && device.closeCount == old(device.closeCount)
    ensures sync.config == old(sync.config)
    ensures device.natRules == old(device.natRules)
    ensures device.closeCount - old(device.closeCount) == device.openCount - old(device.openCount) <= 1
    ensures forall e :: e in device.entries ==> e in old(device.entries)
    ensures resp.status == 200 && old(sync.Enabled()) ==>
      var stored := IpsWithId(old(db.allowedIps), ipId, licenseId)[0].ipCidr;
      var kept := MikroTik.NotMatching(sync.config.value.addressList, stored, MikroTik.Tag(licenseId));
      Filter(device.entries, kept) == Filter(old(device.entries), kept)
  {
    ghost var f0 := db.faults;
    var ipResult := db.FindIp(ipId, licenseId);
    if ipResult.Fault? {
      return Response(500, Error(RemoveFailed));
    }
    if ipResult.value == [] {
      return Response(404, Error(IpNotFound));
    }
    var ip := ipResult.value[0];
    DropShifts(f0, 1, 0);
    var deleted := db.DeleteIp(ipId);
    if deleted.Fault? {
      return Response(500, Error(RemoveFailed));
    }
    var synced := sync.RemoveIp(device, ip.ipCidr, licenseId);
    resp := Response(200, Message(Removed));
  }

  /** Adding an address and then deleting the row it produced leaves the allow-list as it was. */
  lemma {:induction false} AddThenRemoveRow(ips: seq<AllowedIp>, row: AllowedIp)
    requires forall a :: a in ips ==> a.id != row.id
    ensures Filter(ips + [row], (a: AllowedIp) => a.id != row.id) == ips
  {
    FilterAppend(ips, [row], (a: AllowedIp) => a.id != row.id);
    FilterKeepsAll(ips, (a: AllowedIp) => a.id != row.id);
    assert [row][1..] == [];
  }
}
