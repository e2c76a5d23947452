/** The license administration routes: create with a supplied or generated key, read one
    license with its allow-list, a partial update whose SET list is built field by field, and
    delete. Path ids arrive already read as numbers; the generated key (`uuidv4()`) is a
    parameter. */
module LicensesRoutes {
  import opened Wrappers
  import opened Types
  import opened Faults
  import opened Seqs
  import opened Text
  import opened SqlParams
  import opened Db

  datatype Body =
    | Row(row: License)
    | Detail(license: License, allowedIps: seq<AllowedIp>)
    | Error(error: string)
    | Message(message: string)

  datatype Response = Response(status: nat, body: Body)

  const KeyExists: string := "License key already exists"
  const CreateFailed: string := "Failed to create license"
  const LicenseNotFound: string := "License not found"
  const GetFailed: string := "Failed to get license"
  const NoFields: string := "No fields to update"
  const UpdateFailed: string := "Failed to update license"
  const Deleted: string := "License deleted successfully"
  const DeleteFailed: string := "Failed to delete license"

  // ---------------------------------------------------------------- create

  /** `license_key || uuidv4()` */
  function KeyOf(req: CreateLicenseRequest, uuid: string): (r: string)
    ensures Truthy(req.licenseKey) ==> r == req.licenseKey.value
    ensures !Truthy(req.licenseKey) ==> r == uuid
  {
    if Truthy(req.licenseKey) then req.licenseKey.value else uuid
  }

  /** `name || null` */
  function NameOf(req: CreateLicenseRequest): (r: Option<string>)
    ensures r.Some? <==> Truthy(req.name)
    ensures r.Some? ==> r == req.name
  {
    if Truthy(req.name) then req.name else None
  }

  /** The reply to a creation, read off the tables and the fault script. */
  function CreateOutcome(t: Tables, faults: seq<bool>, req: CreateLicenseRequest, uuid: string, now: int): (r: Response)
    ensures r.status in {201, 409, 500}
    ensures r.status == 409 <==> !FailsAt(faults, 0) && HasKey(t.licenses, KeyOf(req, uuid))
    ensures r.status == 201 <==> !FailsAt(faults, 0) && !HasKey(t.licenses, KeyOf(req, uuid))
    ensures r.status == 201 ==>
      r.body == Row(License(t.nextLicenseId, NameOf(req), KeyOf(req, uuid), true, now, req.expiresAt))
  {
    var key := KeyOf(req, uuid);
    if FailsAt(faults, 0) then Response(500, Error(CreateFailed))
    else if HasKey(t.licenses, key) then Response(409, Error(KeyExists))
    else Response(201, Row(License(t.nextLicenseId, NameOf(req), key, true, now, req.expiresAt)))
  }

  /** `POST /v1/licenses`: one insert; a taken key is reported apart from other failures. */
  method Create(db: Database, req: CreateLicenseRequest, uuid: string, now: int) returns (resp: Response)
    modifies db
    requires db.Valid()
    ensures db.Valid()
    ensures resp == CreateOutcome(old(db.State()), old(db.faults), req, uuid, now)
    ensures db.faults == Drop(old(db.faults), 1)
    ensures db.allowedIps == old(db.allowedIps) && db.authLogs == old(db.authLogs)
    ensures resp.status == 201 ==>
      db.licenses == old(db.licenses) + [resp.body.row] && db.nextLicenseId == old(db.nextLicenseId) + 1
    ensures resp.status != 201 ==> db.State() == old(db.State())
  {
    var key := if Truthy(req.licenseKey) then req.licenseKey.value else uuid;
    var expiresAt := req.expiresAt;
    var result := db.InsertLicense(NameOf(req), key, expiresAt, now);
    if result.Fault? {
      if result.code == UniqueViolation {
        return Response(409, Error(KeyExists));
      }
      return Response(500, Error(CreateFailed));
    }
    resp := Response(201, Row(result.value));
  }

  // ---------------------------------------------------------------- read one

  /** The reply to `GET /v1/licenses/:id`. */
  function GetOutcome(t: Tables, faults: seq<bool>, id: nat): (r: Response)
    ensures r.status in {200, 404, 500}
    ensures r.status == 404 <==> !FailsAt(faults, 0) && LicensesWithId(t.licenses, id) == []
    ensures r.status == 200 ==>
      r.body.Detail? && r.body.license in t.licenses && r.body.license.id == id
      && r.body.allowedIps == IpsOfLicense(t.allowedIps, id)
  {
    if FailsAt(faults, 0) then Response(500, Error(GetFailed))
    else if LicensesWithId(t.licenses, id) == [] then Response(404, Error(LicenseNotFound))
    else if FailsAt(faults, 1) then Response(500, Error(GetFailed))
    else Response(200, Detail(LicensesWithId(t.licenses, id)[0], IpsOfLicense(t.allowedIps, id)))
  }

  /** `GET /v1/licenses/:id`: the license row, then its allow-list. Reads only. */
  method Get(db: Database, id: nat) returns (resp: Response)
    modifies db
    ensures resp == GetOutcome(old(db.State()), old(db.faults), id)
    ensures db.State() == old(db.State())
  {
    ghost var f0 := db.faults;
    var licenseResult := db.FindLicenseById(id);
    if licenseResult.Fault? {
      return Response(500, Error(GetFailed));
    }
    if licenseResult.value == [] {
      return Response(404, Error(LicenseNotFound));
    }
    var license := licenseResult.value[0];
    DropShifts(f0, 1, 0);
    var ipsResult := db.FindIpsOfLicense(id);
    if ipsResult.Fault? {
      return Response(500, Error(GetFailed));
    }
    resp := Response(200, Detail(license, ipsResult.value));
  }

  // ---------------------------------------------------------------- update

  /** The body of a PATCH. The outer `None` is a field left out (`undefined`); an inner
      `None` is an explicit `null`. `expiresAt` holds the text as sent. */
  datatype PatchRequest = PatchRequest(
    name: Option<Option<string>>,
    active: Option<bool>,
    expiresAt: Option<Option<string>>)

  /** A value bound to an UPDATE placeholder. */
  datatype SqlValue = Null | Text(text: string) | Bool(b: bool) | Time(t: int) | Number(n: nat)

  const NameSet: string := "name ="
  const ActiveSet: string := "active ="
  const ExpirySet: string := "expires_at ="

  /** `expires_at ? new Date(expires_at) : null`; reading the date text is `dateOf`. */
  function ExpiryOf(e: Option<string>, dateOf: string -> int): (r: Option<int>)
    ensures r.Some? <==> Truthy(e)
  {
    if Truthy(e) then Some(dateOf(e.value)) else None
  }

  function TextOrNull(s: Option<string>): SqlValue
  {
    if s.Some? then Text(s.value) else Null
  }

  function TimeOrNull(t: Option<int>): SqlValue
  {
    if t.Some? then Time(t.value) else Null
  }

  /** The assignments of a PATCH: one per field that is not `undefined`, in the fixed order
      name, active, expires_at. */
  function Assignments(req: PatchRequest, dateOf: string -> int): (r: seq<Clause<SqlValue>>)
    ensures |r| <= 3
    ensures r == [] <==> req.name.None? && req.active.None? && req.expiresAt.None?
  {
    When(req.name.Some?, Clause(NameSet, TextOrNull(req.name.GetOr(None))))
    + When(req.active.Some?, Clause(ActiveSet, Bool(req.active.GetOr(false))))
    + When(req.expiresAt.Some?, Clause(ExpirySet, TimeOrNull(ExpiryOf(req.expiresAt.GetOr(None), dateOf))))
  }

  /** The change the statement makes to the matching row. */
  function ChangesOf(req: PatchRequest, dateOf: string -> int): LicenseChanges
  {
    LicenseChanges(
      req.name,
      req.active,
      if req.expiresAt.Some? then Some(ExpiryOf(req.expiresAt.value, dateOf)) else None)
  }

  /** An UPDATE statement and the values bound to its placeholders. */
  datatype UpdateQuery = UpdateQuery(sql: string, values: seq<SqlValue>)

  const UpdatePrefix: string := "UPDATE licenses SET "
  const UpdateWhereId: string := " WHERE id = "
  const UpdateSuffix: string := " RETURNING *"

  /** The field-by-field part of the PATCH handler: each defined field pushes its assignment,
      numbered by the running `paramCount`, and its value. */
  method BuildAssignments(req: PatchRequest, dateOf: string -> int)
    returns (updates: seq<string>, values: seq<SqlValue>, paramCount: nat)
    ensures updates == Numbering(Assignments(req, dateOf)) && values == ValuesOf(Assignments(req, dateOf))
    ensures paramCount == |Assignments(req, dateOf)| + 1
  {
    var name := Clause(NameSet, TextOrNull(req.name.GetOr(None)));
    var active := Clause(ActiveSet, Bool(req.active.GetOr(false)));
    var expiry := Clause(ExpirySet, TimeOrNull(ExpiryOf(req.expiresAt.GetOr(None), dateOf)));
    updates, values, paramCount := [], [], 1;
    updates, values, paramCount := PushWhen(updates, values, paramCount, req.name.Some?, name, []);
    updates, values, paramCount := PushWhen(updates, values, paramCount, req.active.Some?, active,
                                            When(req.name.Some?, name));
    updates, values, paramCount := PushWhen(updates, values, paramCount, req.expiresAt.Some?, expiry,
                                            When(req.name.Some?, name) + When(req.active.Some?, active));
  }

  /** The PATCH statement builder: `None` when no field is defined (no statement is issued);
      otherwise the defined fields' assignments take `$1..$k` in order, and the id is bound
      last, to `$(k+1)`. */
  method BuildUpdate(id: nat, req: PatchRequest, dateOf: string -> int) returns (q: Option<UpdateQuery>)
    ensures q.None? <==> req.name.None? && req.active.None? && req.expiresAt.None?
    ensures q.Some? ==>
      var a := Assignments(req, dateOf);
      q.value.sql == UpdatePrefix + Join(Numbering(a), ", ") + UpdateWhereId + Placeholder(|a| + 1) + UpdateSuffix
      && q.value.values == ValuesOf(a) + [Number(id)]
  {
    var updates, values, paramCount := BuildAssignments(req, dateOf);
    if |updates| == 0 {
      return None;
    }
    values := values + [Number(id)];
    var sql := UpdatePrefix + Join(updates, ", ") + UpdateWhereId + Placeholder(paramCount) + UpdateSuffix;
    q := Some(UpdateQuery(sql, values));
  }

  /** The reply to a PATCH. */
  function PatchOutcome(t: Tables, faults: seq<bool>, id: nat, req: PatchRequest, dateOf: string -> int): (r: Response)
    ensures r.status in {200, 400, 404, 500}
    ensures r.status == 400 <==> req.name.None? && req.active.None? && req.expiresAt.None?
    ensures r.status == 404 <==>
      Assignments(req, dateOf) != [] && !FailsAt(faults, 0) && LicensesWithId(t.licenses, id) == []
  {
    if Assignments(req, dateOf) == [] then Response(400, Error(NoFields))
    else if FailsAt(faults, 0) then Response(500, Error(UpdateFailed))
    else
      var rows := LicensesWithId(UpdateWhere(t.licenses, id, ChangesOf(req, dateOf)), id);
      UpdateKeepsIds(t.licenses, id, ChangesOf(req, dateOf));
      if rows == [] then Response(404, Error(LicenseNotFound))
      else Response(200, Row(rows[0]))
  }

  /** `PATCH /v1/licenses/:id`: with no field defined nothing is queried; otherwise the
      statement changes exactly the defined fields of the row with that id. */
  method Patch(db: Database, id: nat, req: PatchRequest, dateOf: string -> int) returns (resp: Response)
    modifies db
    requires db.Valid()
    ensures db.Valid()
    ensures resp == PatchOutcome(old(db.State()), old(db.faults), id, req, dateOf)
    ensures db.allowedIps == old(db.allowedIps) && db.authLogs == old(db.authLogs)
    ensures db.nextLicenseId == old(db.nextLicenseId)
    ensures resp.status == 400 ==> db.faults == old(db.faults)
    ensures resp.status == 200 || resp.status == 404 ==>
      db.licenses == UpdateWhere(old(db.licenses), id, ChangesOf(req, dateOf))
    ensures resp.status == 500 || resp.status == 400 ==> db.licenses == old(db.licenses)
  {
    var q := BuildUpdate(id, req, dateOf);
    if q.None? {
      return Response(400, Error(NoFields));
    }
    var result := db.UpdateLicense(id, ChangesOf(req, dateOf));
    if result.Fault? {
      return Response(500, Error(UpdateFailed));
    }
    UpdateKeepsIds(old(db.licenses), id, ChangesOf(req, dateOf));
    if result.value == [] {
      return Response(404, Error(LicenseNotFound));
    }
    resp := Response(200, Row(result.value[0]));
  }

  /** An update touches no id, so it finds a row exactly when one has that id. */
  lemma {:induction false} UpdateKeepsIds(ls: seq<License>, id: nat, c: LicenseChanges)
    ensures LicensesWithId(UpdateWhere(ls, id, c), id) == [] <==> LicensesWithId(ls, id) == []
  {
    if ls != [] {
      var us := UpdateWhere(ls, id, c);
      assert us == [us[0]] + UpdateWhere(ls[1..], id, c);
      assert us[0].id == ls[0].id;
      UpdateKeepsIds(ls[1..], id, c);
    }
  }

  /** Applying the same update twice changes nothing more. */
  lemma UpdateIdempotent(ls: seq<License>, id: nat, c: LicenseChanges)
    ensures UpdateWhere(UpdateWhere(ls, id, c), id, c) == UpdateWhere(ls, id, c)
  {
    var once := UpdateWhere(ls, id, c);
    var twice := UpdateWhere(once, id, c);
    forall i | 0 <= i < |ls|
      ensures twice[i] == once[i]
    {
    }
  }

  /** The row an update returns carries the new values of exactly the fields the request
      defined, and keeps the rest. */
  lemma UpdatedRow(ls: seq<License>, id: nat, req: PatchRequest, dateOf: string -> int, i: nat)
    requires i < |ls| && ls[i].id == id
    ensures var row := UpdateWhere(ls, id, ChangesOf(req, dateOf))[i];
      row.id == id && row.licenseKey == ls[i].licenseKey && row.createdAt == ls[i].createdAt
      && row.name == (if req.name.Some? then req.name.value else ls[i].name)
      && row.active == (if req.active.Some? then req.active.value else ls[i].active)
      && row.expiresAt == (if req.expiresAt.None? then ls[i].expiresAt
                           else if Truthy(req.expiresAt.value) then Some(dateOf(req.expiresAt.value.value))
                           else None)
  {
  }

  // ---------------------------------------------------------------- delete

  /** The reply to `DELETE /v1/licenses/:id`. */
  function DeleteOutcome(t: Tables, faults: seq<bool>, id: nat): (r: Response)
    ensures r.status in {200, 404, 500}
    ensures r.status == 404 <==> !FailsAt(faults, 0) && LicensesWithId(t.licenses, id) == []
  {
    if FailsAt(faults, 0) then Response(500, Error(DeleteFailed))
    else if LicensesWithId(t.licenses, id) == [] then Response(404, Error(LicenseNotFound))
    else Response(200, Message(Deleted))
  }

  /** `DELETE /v1/licenses/:id`: one statement; the rows it returned decide 200 or 404. */
  method Delete(db: Database, id: nat) returns (resp: Response)
    modifies db
    requires db.Valid()
    ensures db.Valid()
    ensures resp == DeleteOutcome(old(db.State()), old(db.faults), id)
    ensures db.allowedIps == old(db.allowedIps) && db.authLogs == old(db.authLogs)
    ensures resp.status != 500 ==> db.licenses == Filter(old(db.licenses), (l: License) => l.id != id)
    ensures resp.status == 500 ==> db.licenses == old(db.licenses)
  {
    var result := db.DeleteLicense(id);
    if result.Fault? {
      return Response(500, Error(DeleteFailed));
    }
    if result.value == [] {
      return Response(404, Error(LicenseNotFound));
    }
    resp := Response(200, Message(Deleted));
  }

  // ---------------------------------------------------------------- across routes

  /** A license just created is found by its id, and by nothing else with that id. */
  lemma {:induction false} CreateThenGet(ls: seq<License>, row: License)
    requires forall l :: l in ls ==> l.id < row.id
    ensures LicensesWithId(ls + [row], row.id) == [row]
  {
    FilterAppend(ls, [row], (l: License) => l.id == row.id);
    FilterEmptyIff(ls, (l: License) => l.id == row.id);
    assert [row][1..] == [];
  }

  /** After a delete, reading the same id answers 404. */
  lemma {:induction false} DeleteThenGet(t: Tables, id: nat, faults: seq<bool>)
    requires !FailsAt(faults, 0)
    ensures GetOutcome(t.(licenses := Filter(t.licenses, (l: License) => l.id != id)), faults, id).status == 404
  {
    var rest := Filter(t.licenses, (l: License) => l.id != id);
    FilterEmptyIff(rest, (l: License) => l.id == id);
  }
}
