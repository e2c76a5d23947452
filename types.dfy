/** The record shapes shared by the service: the three stored tables, the authorization
    request and reply, the administrative request bodies and the device configuration.
    Timestamps are milliseconds since the epoch; a JavaScript `null` is `None`. */
module Types {
  import opened Wrappers

  datatype License = License(
    id: nat,
    name: Option<string>,
    licenseKey: string,
    active: bool,
    createdAt: int,
    expiresAt: Option<int>)

  datatype AllowedIp = AllowedIp(
    id: nat,
    licenseId: nat,
    ipCidr: string,
    note: Option<string>,
    createdAt: int)

  /** The body of an authorization request. A field the caller left out is `None`. */
  datatype AuthCheckRequest = AuthCheckRequest(
    licenseKey: Option<string>,
    publicIp: Option<string>,
    machineId: Option<string>)

  /** One audit row. `rawRequest` keeps the request body as received (its JSON text is not
      modelled). */
  datatype AuthLog = AuthLog(
    id: nat,
    licenseKey: Option<string>,
    requestIp: Option<string>,
    machineIdentifier: Option<string>,
    result: string,
    rawRequest: AuthCheckRequest,
    createdAt: int)

  datatype AuthCheckResponse = AuthCheckResponse(allowed: bool, message: string)

  /** The body of a license creation; `expiresAt` is the requested expiry, already read as a
      timestamp, `None` when absent or empty. */
  datatype CreateLicenseRequest = CreateLicenseRequest(
    name: Option<string>,
    licenseKey: Option<string>,
    expiresAt: Option<int>)

  datatype AddIpRequest = AddIpRequest(ipCidr: Option<string>, note: Option<string>)

  datatype ApiRole = Admin | Installer

  datatype MikroTikConfig = MikroTikConfig(
    enabled: bool,
    host: string,
    user: string,
    pass: string,
    port: nat,
    outInterface: string,
    publicNatIp: string,
    addressList: string)

  /** The address list used when none is configured. */
  const DefaultAddressList: string := "LICENSED_IPS"

  /** The RouterOS API port used when none is configured. */
  const DefaultPort: nat := 8728

  /** A JavaScript string is truthy when it is present and not empty. */
  predicate Truthy(s: Option<string>)
  {
    s.Some? && s.value != ""
  }
}
